/**
 The rebase of the kernel's classic relocations: a plan of words to patch over a staged arena, the
 arena it produces and the sweep with three cursors that verifies it.
 */
module ClassicRebase {
  import opened Wrappers
  import opened Words
  import opened Sorting
  import opened C = Collection
  import opened S = Staging
  import opened A = StagingArena
  import F = FixupAudit
  import T = AuditSafety

  datatype RebaseError =
    | StagingFailed(staging: StagingError)
    | AuditFailed(audit: F.AuditError)
    | AuditIssues
    | ExecutableMemberCount
    | EmptyClassicTable
    | UnsupportedClassicProfile
    | OutsideKernelFileMapping
    | HeaderWrite
    | RebaseOverflow
    | ValueOverflow
    | WrongSize
    | Mismatch

  /** A word to write: its arena offset, its width and its eight little-endian bytes. */
  datatype PatchWord = PatchWord(offset: nat, width: nat, after: seq<byte>) {
    function End(): nat {
      offset + width
    }
  }

  datatype Totals = Totals(width4: nat, width8: nat, written: nat, changed: nat)

  datatype Collected = Collected(words: seq<PatchWord>, totals: Totals)

  datatype RebasePlan = RebasePlan(
    staging: S.Plan,
    words: seq<PatchWord>,
    totals: Totals,
    nonTarget: nat,
    chainWords: nat,
    headerRanges: nat)

  /** Everything a record is checked against. */
  datatype Context = Context(source: seq<byte>, slide: u32, kernel: Image, images: seq<Image>, staging: S.Plan)

  //////////////////////////////////////////////////////////////////////////////
  // Planning
  //////////////////////////////////////////////////////////////////////////////

  function WordOffset(w: PatchWord): int {
    w.offset
  }

  function MappingMatches(segments: seq<Segment>, address: nat, file: nat, width: nat): Result<bool, RebaseError>
    decreases |segments|
  {
    if segments == [] then Ok(false)
    else
      var s := segments[0];
      if !Fits64(s.address + s.file.size) then Err(RebaseOverflow)
      else if address >= s.address && address + width <= s.address + s.file.size then
        if Fits64(s.file.offset + (address - s.address)) then Ok(s.file.offset + (address - s.address) == file) else Err(RebaseOverflow)
      else MappingMatches(segments[1..], address, file, width)
  }

  /** `file_mapping_matches`. */
  function FileMappingMatches(image: Image, address: nat, file: nat, width: nat): Result<bool, RebaseError> {
    if !Fits64(address + width) then Err(RebaseOverflow) else MappingMatches(image.segments, address, file, width)
  }

  /** `overlaps`, with its checked sums. */
  function RangesOverlap(a: nat, aSize: nat, b: nat, bSize: nat): Result<bool, RebaseError> {
    if !Fits64(b + bSize) then Err(RebaseOverflow)
    else if a >= b + bSize then Ok(false)
    else if !Fits64(a + aSize) then Err(RebaseOverflow)
    else Ok(b < a + aSize)
  }

  function HitsHeader(image: Image, address: nat, file: nat, width: nat): Result<bool, RebaseError> {
    var inFile :- RangesOverlap(file, width, image.headerFileOffset, image.HeaderSize());
    if inFile then Ok(true) else RangesOverlap(address, width, image.headerAddress, image.HeaderSize())
  }

  function HitsAnyHeader(images: seq<Image>, address: nat, file: nat, width: nat): Result<bool, RebaseError>
    decreases |images|
  {
    if images == [] then Ok(false)
    else
      var hit :- HitsHeader(images[0], address, file, width);
      if hit then Ok(true) else HitsAnyHeader(images[1..], address, file, width)
  }

  predicate Supported(r: F.Record)
    requires r.detail.Classic?
  {
    var d := r.detail;
    && r.image == 0 && d.table == F.LocalDynamic && d.symbolOrdinal == 0 && d.relocationType == 0
    && !d.pcRelative && !d.external && (d.lengthExponent == 2 || d.lengthExponent == 3)
    && r.width == F.WidthOf(d.lengthExponent) && r.overlap == F.ExecutableMember
  }

  /** Where a supported record writes, once every mapping check has passed. */
  function PlaceOf(c: Context, r: F.Record): Result<nat, RebaseError> {
    if r.address.None? || r.file.None? then Err(OutsideKernelFileMapping)
    else
      var mapped :- FileMappingMatches(c.kernel, r.address.value, r.file.value, r.width);
      if !mapped then Err(OutsideKernelFileMapping)
      else
        var header :- HitsAnyHeader(c.images, r.address.value, r.file.value, r.width);
        if header then Err(HeaderWrite) else Ok(r.address.value)
  }

  /** The value a record is patched to. */
  function ValueOf(c: Context, r: F.Record): Result<nat, RebaseError>
    requires r.detail.Classic?
  {
    if r.detail.stored.None? then Err(OutsideKernelFileMapping)
    else
      var after := r.detail.stored.value + c.slide;
      if !Fits64(after) then Err(ValueOverflow)
      else if r.width == 4 && after >= U32_LIMIT then Err(ValueOverflow)
      else Ok(after)
  }

  /** The arena offset of a record's write. */
  function OffsetOf(c: Context, address: nat, width: nat): Result<nat, RebaseError> {
    if address < c.staging.minimum then Err(RebaseOverflow)
    else if !Fits64(address - c.staging.minimum + width) then Err(RebaseOverflow)
    else if address - c.staging.minimum + width > c.staging.arenaSize then Err(OutsideKernelFileMapping)
    else Ok(address - c.staging.minimum)
  }

  function CountDiff(a: seq<byte>, b: seq<byte>): nat
    requires |a| == |b|
  {
    if a == [] then 0
    else CountDiff(a[..|a| - 1], b[..|a| - 1]) + (if a[|a| - 1] != b[|a| - 1] then 1 else 0)
  }

  function RecordStep(c: Context, r: F.Record, done: Collected): Result<Collected, RebaseError>
    requires r.detail.Classic?
  {
    if !Supported(r) then Err(UnsupportedClassicProfile)
    else
      var address :- PlaceOf(c, r);
      var after :- ValueOf(c, r);
      var offset :- OffsetOf(c, address, r.width);
      var file := r.file.value;
      if !Fits64(file + r.width) then Err(RebaseOverflow)
      else if file + r.width > |c.source| then Err(OutsideKernelFileMapping)
      else
        var raw := c.source[file..file + r.width];
        if raw != ToLe(r.detail.stored.value, 8)[..r.width] then Err(UnsupportedClassicProfile)
        else
          var w := PatchWord(offset, r.width, ToLe(after, 8));
          var t := done.totals;
          Ok(Collected(done.words + [w],
                       Totals(t.width4 + (if r.width == 4 then 1 else 0), t.width8 + (if r.width == 4 then 0 else 1),
                              t.written + r.width, t.changed + CountDiff(raw, w.after[..r.width]))))
  }

  /** The words of the classic records, from the k-th record on. */
  function CollectWords(c: Context, records: seq<F.Record>, k: nat, done: Collected): Result<Collected, RebaseError>
    requires k <= |records|
    decreases |records| - k
  {
    if k == |records| then Ok(done)
    else if !records[k].detail.Classic? then CollectWords(c, records, k + 1, done)
    else
      var next :- RecordStep(c, records[k], done);
      CollectWords(c, records, k + 1, next)
  }

  predicate WordsInOrder(words: seq<PatchWord>) {
    forall i :: 0 <= i < |words| - 1 ==> words[i].End() <= words[i + 1].offset
  }

  function Executables(members: seq<Image>): seq<Image>
    decreases |members|
  {
    if members == [] then [] else (if members[0].fileType == 2 then [members[0]] else []) + Executables(members[1..])
  }

  const DEFAULT_LIMITS: F.Limits := F.Limits(F.MAX_AUDIT, F.MAX_AUDIT, F.MAX_AUDIT)

  function ContextOf(source: seq<byte>, i: Inspection, slide: u32, staging: S.Plan, kernel: Image): Context {
    Context(source, slide, kernel, [i.collection] + i.members, staging)
  }

  const NO_WORDS: Collected := Collected([], Totals(0, 0, 0, 0))

  /** `new`, after the inspection: staging, one executable member, a clean audit, then the words. */
  function PlanRebase(source: seq<byte>, i: Inspection, slide: u32): Result<RebasePlan, RebaseError> {
    var staged := FromInspection(source, i, 4096);
    if staged.Err? then Err(StagingFailed(staged.error))
    else if |Executables(i.members)| != 1 then Err(ExecutableMemberCount)
    else
      var audited := F.Audit(source, DEFAULT_LIMITS, i);
      if audited.Err? then Err(AuditFailed(audited.error))
      else if audited.value.issues != [] then Err(AuditIssues)
      else if audited.value.classicRecords == 0 then Err(EmptyClassicTable)
      else
        var c := ContextOf(source, i, slide, staged.value, Executables(i.members)[0]);
        var collected :- CollectWords(c, audited.value.records, 0, NO_WORDS);
        var words := Sort(collected.words, WordOffset);
        if !WordsInOrder(words) then Err(AuditIssues)
        else if staged.value.arenaSize < collected.totals.written then Err(RebaseOverflow)
        else
          Ok(RebasePlan(staged.value, words, collected.totals, staged.value.arenaSize - collected.totals.written,
                        audited.value.chainRecords, |i.members| + 1))
  }

  //////////////////////////////////////////////////////////////////////////////
  // One record
  //////////////////////////////////////////////////////////////////////////////

  /** The patched word of a record: its place in the arena, and its old value plus the slide without wrap. */
  predicate WordOk(c: Context, r: F.Record, w: PatchWord) {
    && r.detail.Classic? && r.address.Some? && r.file.Some? && r.detail.stored.Some?
    && (w.width == 4 || w.width == 8) && w.width == r.width
    && w.offset + c.staging.minimum == r.address.value && w.End() <= c.staging.arenaSize
    && r.detail.stored.value + c.slide < (if w.width == 4 then U32_LIMIT else U64_LIMIT)
    && w.after == ToLe(r.detail.stored.value + c.slide, 8)
  }

  /** A write leaves the headers of all images alone. */
  predicate AllSeparate(images: seq<Image>, address: nat, width: nat) {
    forall j :: 0 <= j < |images| ==> Separate(images[j], address, width)
  }

  predicate Separate(image: Image, address: nat, width: nat) {
    address + width <= image.headerAddress || image.headerAddress + image.HeaderSize() <= address
  }

  predicate SeparateInFile(image: Image, file: nat, width: nat) {
    file + width <= image.headerFileOffset || image.headerFileOffset + image.HeaderSize() <= file
  }

  /** The file bytes of a segment map `width` bytes at an address to a file offset. */
  predicate MapsTo(s: Segment, address: nat, file: nat, width: nat) {
    s.address <= address && address + width <= s.address + s.file.size && file == s.file.offset + (address - s.address)
  }

  predicate SomeMaps(segments: seq<Segment>, address: nat, file: nat, width: nat) {
    exists k :: 0 <= k < |segments| && MapsTo(segments[k], address, file, width)
  }

  predicate AllClear(images: seq<Image>, address: nat, file: nat, width: nat) {
    forall j :: 0 <= j < |images| ==> Separate(images[j], address, width) && SeparateInFile(images[j], file, width)
  }

  /** A file-backed segment of the kernel maps the record's address to the record's file offset. */
  predicate KernelMaps(c: Context, r: F.Record) {
    r.address.Some? && r.file.Some? && SomeMaps(c.kernel.segments, r.address.value, r.file.value, r.width)
  }

  /** The record writes no byte of a header, in memory or in the file. */
  predicate HeadersClear(c: Context, r: F.Record) {
    r.address.Some? && r.file.Some? && AllClear(c.images, r.address.value, r.file.value, r.width)
  }

  /** The stored value plus the slide fits the width of the record. */
  predicate ValueFits(c: Context, r: F.Record)
    requires r.detail.Classic?
  {
    r.detail.stored.Some? && r.detail.stored.value + c.slide < (if r.width == 4 then U32_LIMIT else U64_LIMIT)
  }

  /** A local, absolute, untyped relocation of the collection, of four or eight bytes, in an executable member. */
  predicate Plain(r: F.Record)
    requires r.detail.Classic?
  {
    && r.image == 0 && r.overlap.ExecutableMember?
    && r.detail.table.LocalDynamic? && r.detail.symbolOrdinal == 0 && r.detail.relocationType == 0
    && !r.detail.external && !r.detail.pcRelative
    && ((r.detail.lengthExponent == 2 && r.width == 4) || (r.detail.lengthExponent == 3 && r.width == 8))
  }

  /** A classic record the rebase can patch. */
  predicate Acceptable(c: Context, r: F.Record)
    requires r.detail.Classic?
  {
    Plain(r) && KernelMaps(c, r) && HeadersClear(c, r) && ValueFits(c, r)
  }

  /** The first of the four conditions a record breaks, as the error it is refused with. */
  function Refusal(c: Context, r: F.Record): (e: Option<RebaseError>)
    requires r.detail.Classic?
    ensures e.None? <==> Acceptable(c, r)
  {
    if !Plain(r) then Some(UnsupportedClassicProfile)
    else if !KernelMaps(c, r) then Some(OutsideKernelFileMapping)
    else if !HeadersClear(c, r) then Some(HeaderWrite)
    else if !ValueFits(c, r) then Some(ValueOverflow)
    else None
  }

  /** The facts a context is built from. */
  ghost predicate ContextOk(c: Context, i: Inspection, env: F.Env) {
    && Accepted(c.source, i) && env.source == c.source && T.EnvOk(env, i.collection.segments)
    && FromInspection(c.source, i, 4096) == Ok(c.staging)
    && c.images == [i.collection] + i.members && c.kernel in i.members
  }

  lemma {:induction false} ToLePrefix(v: nat, n: nat, m: nat)
    requires m <= n
    ensures ToLe(v, n)[..m] == ToLe(v, m)
  {
    if m > 0 {
      ToLePrefix(v / 256, n - 1, m - 1);
      assert ToLe(v, n)[..m] == [v % 256] + ToLe(v / 256, n - 1)[..m - 1];
    }
  }

  /** The bytes of a stored value are the bytes it was read from. */
  lemma StoredBytes(b: seq<byte>)
    requires |b| <= 8
    ensures ToLe(Le(b), 8)[..|b|] == b
  {
    ToLePrefix(Le(b), 8, |b|);
    ToLeLe(b);
  }

  /** The first segment that holds the range decides, and in disjoint segments it is the only one. */
  lemma {:induction false} MappingExact(source: seq<byte>, segments: seq<Segment>, address: nat, file: nat, width: nat)
    requires forall j :: 0 <= j < |segments| ==> SegmentOk(source, segments[j])
    requires Pairwise(segments, ApartInMemory) && width > 0
    ensures MappingMatches(segments, address, file, width) == Ok(SomeMaps(segments, address, file, width))
    decreases |segments|
  {
    hide ApartInMemory, MapsTo, SegmentOk;
    if segments != [] {
      assert SegmentOk(source, segments[0]);
      MappingExact(source, segments[1..], address, file, width);
      MappingHead(source, segments, address, file, width);
    }
  }

  lemma MappingHead(source: seq<byte>, segments: seq<Segment>, address: nat, file: nat, width: nat)
    requires segments != [] && SegmentOk(source, segments[0]) && Pairwise(segments, ApartInMemory) && width > 0
    requires forall j :: 0 <= j < |segments| ==> SegmentOk(source, segments[j])
    requires MappingMatches(segments[1..], address, file, width) == Ok(SomeMaps(segments[1..], address, file, width))
    ensures MappingMatches(segments, address, file, width) == Ok(SomeMaps(segments, address, file, width))
  {
    hide *;
    var s, rest := segments[0], segments[1..];
    assert segments == [s] + rest;
    MapsCons(s, rest, address, file, width);
    HeadMatches(source, s, rest, address, file, width);
    OnlyHeadMaps(source, segments, address, file, width);
  }

  lemma OnlyHeadMaps(source: seq<byte>, segments: seq<Segment>, address: nat, file: nat, width: nat)
    requires segments != [] && Pairwise(segments, ApartInMemory) && width > 0
    requires forall j :: 0 <= j < |segments| ==> SegmentOk(source, segments[j])
    ensures segments[0].address <= address && address + width <= segments[0].address + segments[0].file.size ==>
              !SomeMaps(segments[1..], address, file, width)
  {
    hide MapsTo, SegmentOk, Pairwise, ApartInMemory;
    var rest := segments[1..];
    forall k | 0 <= k < |rest|
      ensures segments[0].address <= address && address + width <= segments[0].address + segments[0].file.size ==> !MapsTo(rest[k], address, file, width)
    {
      assert rest[k] == segments[k + 1];
      OneMapper(source, segments, k + 1, address, file, width);
    }
  }

  lemma HeadMatches(source: seq<byte>, s: Segment, rest: seq<Segment>, address: nat, file: nat, width: nat)
    requires SegmentOk(source, s)
    ensures MappingMatches([s] + rest, address, file, width) ==
            if s.address <= address && address + width <= s.address + s.file.size then Ok(MapsTo(s, address, file, width))
            else MappingMatches(rest, address, file, width)
    ensures MapsTo(s, address, file, width) ==> s.address <= address && address + width <= s.address + s.file.size
  {
    assert ([s] + rest)[1..] == rest;
  }

  lemma MapsCons(s: Segment, rest: seq<Segment>, address: nat, file: nat, width: nat)
    ensures SomeMaps([s] + rest, address, file, width) <==> MapsTo(s, address, file, width) || SomeMaps(rest, address, file, width)
  {
    hide MapsTo;
    var all := [s] + rest;
    assert all[0] == s && forall k :: 0 <= k < |rest| ==> all[k + 1] == rest[k];
    if SomeMaps(rest, address, file, width) {
      var k :| 0 <= k < |rest| && MapsTo(rest[k], address, file, width);
      assert MapsTo(all[k + 1], address, file, width);
    }
  }

  /** Two segments that are apart in memory do not both hold a nonempty range. */
  lemma OneMapper(source: seq<byte>, segments: seq<Segment>, k: nat, address: nat, file: nat, width: nat)
    requires Pairwise(segments, ApartInMemory) && 0 < k < |segments| && width > 0
    requires SegmentOk(source, segments[0]) && SegmentOk(source, segments[k])
    ensures segments[0].address <= address && address + width <= segments[0].address + segments[0].file.size ==> !MapsTo(segments[k], address, file, width)
  {
    assert ApartInMemory(segments[0], segments[k]);
  }

  lemma HeaderFits(source: seq<byte>, image: Image)
    requires ImageOk(source, image)
    ensures Fits64(image.headerFileOffset + image.HeaderSize()) && Fits64(image.headerAddress + image.HeaderSize())
  {
    hide Pairwise, FixupsOk;
    var k := HeaderMapped(source, image);
    assert SegmentOk(source, image.segments[k]) && Header(image).End() <= |source|;
  }

  lemma {:induction false} HeadersExact(source: seq<byte>, images: seq<Image>, address: nat, file: nat, width: nat)
    requires forall j :: 0 <= j < |images| ==> ImageOk(source, images[j])
    requires Fits64(address + width) && Fits64(file + width)
    ensures HitsAnyHeader(images, address, file, width) == Ok(!AllClear(images, address, file, width))
    decreases |images|
  {
    hide ImageOk, Separate, SeparateInFile;
    if images != [] {
      HeaderExact(source, images[0], address, file, width);
      HeadersExact(source, images[1..], address, file, width);
      assert images == [images[0]] + images[1..];
      ClearCons(images[0], images[1..], address, file, width);
    }
  }

  lemma HeaderExact(source: seq<byte>, image: Image, address: nat, file: nat, width: nat)
    requires ImageOk(source, image) && Fits64(address + width) && Fits64(file + width)
    ensures HitsHeader(image, address, file, width) == Ok(!(Separate(image, address, width) && SeparateInFile(image, file, width)))
  {
    HeaderFits(source, image);
    hide ImageOk;
  }

  lemma ClearCons(image: Image, rest: seq<Image>, address: nat, file: nat, width: nat)
    ensures AllClear([image] + rest, address, file, width) <==>
            Separate(image, address, width) && SeparateInFile(image, file, width) && AllClear(rest, address, file, width)
  {
    hide Separate, SeparateInFile;
    var all := [image] + rest;
    assert all[0] == image && forall j :: 0 <= j < |rest| ==> all[j + 1] == rest[j];
  }

  lemma SegmentByte(c: Context, i: Inspection, env: F.Env, k: nat, a: nat)
    requires ContextOk(c, i, env) && k < |i.collection.segments| && i.collection.segments[k].address <= a < i.collection.segments[k].End()
    ensures SourceOk(c.source, c.staging.segments) && SegmentByteAt(c.source, i.collection.segments[k], a, c.staging)
  {
    ContextParts(c, i, env);
    hide ContextOk, Accepted, FromInspection, SegmentByteAt, SourceOk, Unmapped, Expected;
    ArenaExact(c.source, i, 4096);
  }

  lemma ContextParts(c: Context, i: Inspection, env: F.Env)
    requires ContextOk(c, i, env)
    ensures Accepted(c.source, i) && env.source == c.source && FromInspection(c.source, i, 4096) == Ok(c.staging)
  {
    hide Accepted, FromInspection, T.EnvOk;
  }

  /** The arena bytes under the write of a file-backed record are the source bytes it was read from. */
  predicate Under(c: Context, address: nat, file: nat, width: nat)
    requires SourceOk(c.source, c.staging.segments)
  {
    && c.staging.minimum <= address && address - c.staging.minimum + width <= c.staging.arenaSize && file + width <= |c.source|
    && Expected(c.source, c.staging)[address - c.staging.minimum..address - c.staging.minimum + width] == c.source[file..file + width]
  }

  lemma UnderBytes(c: Context, s: Segment, address: nat, file: nat, width: nat)
    requires SourceOk(c.source, c.staging.segments) && width > 0
    requires s.address <= address && address + width <= s.address + s.file.size && file == s.file.offset + (address - s.address)
    requires forall a: nat :: address <= a < address + width ==> SegmentByteAt(c.source, s, a, c.staging)
    ensures Under(c, address, file, width)
  {
    hide Expected, SourceOk;
    assert SegmentByteAt(c.source, s, address, c.staging);
    assert SegmentByteAt(c.source, s, address + (width - 1), c.staging);
    var from := address - c.staging.minimum;
    var x, y := Expected(c.source, c.staging)[from..from + width], c.source[file..file + width];
    forall d | 0 <= d < width ensures x[d] == y[d] {
      assert SegmentByteAt(c.source, s, address + d, c.staging);
    }
    assert x == y;
  }

  lemma ArenaUnderRecord(c: Context, i: Inspection, env: F.Env, r: F.Record)
    requires ContextOk(c, i, env) && T.RecordOk(env, r) && r.file.Some?
    ensures r.address.Some? && SourceOk(c.source, c.staging.segments) && Under(c, r.address.value, r.file.value, r.width)
  {
    hide ContextOk, T.RecordOk, SegmentByteAt, SourceOk, Under, Accepted, FromInspection;
    var k := RecordSegment(c, i, env, r);
    var s := i.collection.segments[k];
    forall a: nat | r.address.value <= a < r.address.value + r.width ensures SourceOk(c.source, c.staging.segments) && SegmentByteAt(c.source, s, a, c.staging) {
      SegmentByte(c, i, env, k, a);
    }
    SegmentByte(c, i, env, k, r.address.value);
    UnderBytes(c, s, r.address.value, r.file.value, r.width);
  }

  /** The segment whose file bytes a file-backed record writes. */
  lemma RecordSegment(c: Context, i: Inspection, env: F.Env, r: F.Record) returns (k: nat)
    requires ContextOk(c, i, env) && T.RecordOk(env, r) && r.file.Some?
    ensures r.width >= 1 && k < |i.collection.segments| && r.address.Some?
    ensures var s := i.collection.segments[k];
            && s.address <= r.address.value && r.address.value + r.width <= s.address + s.file.size <= s.End()
            && r.file.value == s.file.offset + (r.address.value - s.address) && r.file.value + r.width <= |c.source|
  {
    hide F.FileLocation, F.OverlapOf, F.Searched, FromInspection, Accepted;
    k := F.FileLocationMeans(i.collection.segments, env.outer, r.address.value, r.width);
    assert SegmentOk(c.source, i.collection.segments[k]);
  }

  /** Where a record writes: its address, if the kernel maps it there clear of every header. */
  lemma PlaceExact(c: Context, i: Inspection, env: F.Env, r: F.Record)
    requires ContextOk(c, i, env) && T.RecordOk(env, r) && r.file.Some? && r.address.Some?
    ensures PlaceOf(c, r) ==
            if !KernelMaps(c, r) then Err(OutsideKernelFileMapping) else if !HeadersClear(c, r) then Err(HeaderWrite) else Ok(r.address.value)
  {
    hide *;
    ImagesOk(c, i, env);
    KernelOk(c, i, env);
    ContextParts(c, i, env);
    RecordFits(env, r);
    MappingExact(c.source, c.kernel.segments, r.address.value, r.file.value, r.width);
    HeadersExact(c.source, c.images, r.address.value, r.file.value, r.width);
    PlaceAssembled(c, r);
  }

  lemma PlaceAssembled(c: Context, r: F.Record)
    requires r.address.Some? && r.file.Some? && Fits64(r.address.value + r.width)
    requires MappingMatches(c.kernel.segments, r.address.value, r.file.value, r.width) == Ok(SomeMaps(c.kernel.segments, r.address.value, r.file.value, r.width))
    requires HitsAnyHeader(c.images, r.address.value, r.file.value, r.width) == Ok(!AllClear(c.images, r.address.value, r.file.value, r.width))
    ensures PlaceOf(c, r) ==
            if !KernelMaps(c, r) then Err(OutsideKernelFileMapping) else if !HeadersClear(c, r) then Err(HeaderWrite) else Ok(r.address.value)
  {
    hide MappingMatches, HitsAnyHeader, SomeMaps, AllClear;
  }

  lemma RecordFits(env: F.Env, r: F.Record)
    requires T.RecordOk(env, r) && r.file.Some? && |env.source| <= MAX_INPUT_SIZE
    ensures r.address.Some? && Fits64(r.address.value + r.width) && Fits64(r.file.value + r.width) && r.file.value + r.width <= |env.source|
    ensures r.width > 0
  {
    hide F.FileLocation, F.OverlapOf;
  }

  lemma ImagesOk(c: Context, i: Inspection, env: F.Env)
    requires ContextOk(c, i, env)
    ensures forall j :: 0 <= j < |c.images| ==> ImageOk(c.source, c.images[j])
    ensures |env.source| <= MAX_INPUT_SIZE
  {
    hide ImageOk, MemberOk, EntryRuns, FromInspection, F.Searched, F.Searchable;
  }

  lemma KernelOk(c: Context, i: Inspection, env: F.Env)
    requires ContextOk(c, i, env)
    ensures forall j :: 0 <= j < |c.kernel.segments| ==> SegmentOk(c.source, c.kernel.segments[j])
    ensures Pairwise(c.kernel.segments, ApartInMemory)
  {
    hide SegmentOk, MemberOk, EntryRuns, FromInspection, F.Searched, F.Searchable, FixupsOk, Pairwise;
    var m :| 0 <= m < |i.members| && i.members[m] == c.kernel;
    assert ImageOk(c.source, i.members[m]);
  }

  /** The increments of the totals for one word. */
  function Increment(t: Totals, expected: seq<byte>, w: PatchWord): Totals {
    Totals(t.width4 + (if w.width == 4 then 1 else 0), t.width8 + (if w.width == 4 then 0 else 1), t.written + w.width, t.changed + Changes(expected, w))
  }

  /** How many bytes of the arena a word changes. */
  function Changes(expected: seq<byte>, w: PatchWord): nat {
    if w.End() <= |expected| && w.width <= |w.after| then CountDiff(expected[w.offset..w.End()], w.after[..w.width]) else 0
  }

  /** The word of a record, clear of every header. */
  predicate Placed(c: Context, r: F.Record, w: PatchWord) {
    WordOk(c, r, w) && AllSeparate(c.images, r.address.value, r.width)
  }

  /** What one step over a clean classic record does: it adds the word of an acceptable record, or refuses the record as it deserves. */
  ghost predicate Stepped(c: Context, r: F.Record, done: Collected, result: Result<Collected, RebaseError>)
    requires SourceOk(c.source, c.staging.segments) && r.detail.Classic?
  {
    match result
    case Ok(next) =>
      && Acceptable(c, r)
      && |next.words| == |done.words| + 1 && next.words == done.words + [next.words[|done.words|]]
      && Placed(c, r, next.words[|done.words|])
      && next.totals == Increment(done.totals, Expected(c.source, c.staging), next.words[|done.words|])
    case Err(e) => Refusal(c, r) == Some(e)
  }

  lemma StepAssembled(c: Context, r: F.Record, done: Collected, stored: nat)
    requires r.detail.Classic? && r.address.Some? && r.file.Some? && r.detail.stored == Some(stored)
    requires SourceOk(c.source, c.staging.segments) && Under(c, r.address.value, r.file.value, r.width) && r.width <= 8
    requires |c.source| <= MAX_INPUT_SIZE && c.staging.arenaSize <= MAX_STAGING_SIZE
    requires c.source[r.file.value..r.file.value + r.width] == ToLe(stored, 8)[..r.width]
    requires PlaceOf(c, r) ==
             if !KernelMaps(c, r) then Err(OutsideKernelFileMapping) else if !HeadersClear(c, r) then Err(HeaderWrite) else Ok(r.address.value)
    ensures Stepped(c, r, done, RecordStep(c, r, done))
  {
    if HeadersClear(c, r) {
      ClearIsSeparate(c.images, r.address.value, r.file.value, r.width);
    }
    hide PlaceOf, ToLe, SourceOk, Expected, AllSeparate, AllClear, SomeMaps, CountDiff, KernelMaps, HeadersClear;
  }

  lemma ClearIsSeparate(images: seq<Image>, address: nat, file: nat, width: nat)
    requires AllClear(images, address, file, width)
    ensures AllSeparate(images, address, width)
  {
    hide Separate, SeparateInFile;
  }

  /** The step over a clean classic record succeeds exactly on acceptable records, and its error is the condition the record breaks. */
  lemma RecordStepExact(c: Context, i: Inspection, env: F.Env, r: F.Record, done: Collected)
    requires ContextOk(c, i, env) && T.RecordOk(env, r) && T.RecordClean(r) && r.detail.Classic?
    ensures SourceOk(c.source, c.staging.segments) && Stepped(c, r, done, RecordStep(c, r, done))
    ensures RecordStep(c, r, done).Ok? <==> Acceptable(c, r)
  {
    CleanFile(r);
    hide *;
    ArenaUnderRecord(c, i, env, r);
    ContextParts(c, i, env);
    PlanReadable(c.source, i, 4096);
    SmallSource(c.source, i);
    RecordFits(env, r);
    PlaceExact(c, i, env, r);
    StoredIs(env, r);
    StoredBytes(c.source[r.file.value..r.file.value + r.width]);
    StepAssembled(c, r, done, r.detail.stored.value);
    StepDecides(c, r, done);
  }

  lemma StepDecides(c: Context, r: F.Record, done: Collected)
    requires SourceOk(c.source, c.staging.segments) && r.detail.Classic? && Stepped(c, r, done, RecordStep(c, r, done))
    ensures RecordStep(c, r, done).Ok? <==> Acceptable(c, r)
  {
    hide RecordStep, Acceptable, Placed, Expected, SourceOk, Increment;
  }

  lemma CleanFile(r: F.Record)
    requires T.RecordClean(r) && r.detail.Classic?
    ensures r.file.Some?
  {
  }

  lemma StoredIs(env: F.Env, r: F.Record)
    requires T.RecordOk(env, r) && r.file.Some? && r.detail.Classic?
    ensures r.file.value + r.width <= |env.source| && r.width <= 8
    ensures r.detail.stored == Some(Le(env.source[r.file.value..r.file.value + r.width]))
  {
    hide F.FileLocation, F.OverlapOf, Le;
  }

  //////////////////////////////////////////////////////////////////////////////
  // All records
  //////////////////////////////////////////////////////////////////////////////

  /** The indices of the classic records among the first k. */
  function ClassicIndices(records: seq<F.Record>, k: nat): seq<nat>
    requires k <= |records|
  {
    if k == 0 then []
    else ClassicIndices(records, k - 1) + (if records[k - 1].detail.Classic? then [k - 1] else [])
  }

  lemma {:induction false} IndicesIncrease(records: seq<F.Record>, k: nat)
    requires k <= |records|
    ensures var s := ClassicIndices(records, k);
            && (forall j :: 0 <= j < |s| ==> s[j] < k && records[s[j]].detail.Classic?)
            && (forall i, j :: 0 <= i < j < |s| ==> s[i] < s[j])
            && forall m :: 0 <= m < k && records[m].detail.Classic? ==> m in s
  {
    if k > 0 {
      IndicesIncrease(records, k - 1);
    }
  }

  /** The words collected from the first k records: one for every classic record, in order, with their totals. */
  ghost predicate CollectedOk(c: Context, records: seq<F.Record>, k: nat, done: Collected)
    requires k <= |records| && SourceOk(c.source, c.staging.segments)
  {
    var s := ClassicIndices(records, k);
    && |done.words| == |s|
    && (forall j :: 0 <= j < |s| ==> s[j] < |records| && Placed(c, records[s[j]], done.words[j]))
    && done.totals == TotalsOf(Expected(c.source, c.staging), done.words)
  }

  /** The totals of a list of words. */
  function TotalsOf(expected: seq<byte>, words: seq<PatchWord>): Totals {
    if words == [] then Totals(0, 0, 0, 0) else Increment(TotalsOf(expected, words[..|words| - 1]), expected, words[|words| - 1])
  }

  lemma CollectedSnoc(c: Context, records: seq<F.Record>, k: nat, done: Collected, next: Collected)
    requires k < |records| && SourceOk(c.source, c.staging.segments) && records[k].detail.Classic?
    requires CollectedOk(c, records, k, done) && Stepped(c, records[k], done, Ok(next))
    ensures CollectedOk(c, records, k + 1, next)
  {
    hide Placed, Increment, Expected, SourceOk;
    var s, t := ClassicIndices(records, k), ClassicIndices(records, k + 1);
    assert t == s + [k];
    var w := next.words[|done.words|];
    assert next.words[..|done.words|] == done.words;
    forall j | 0 <= j < |t| ensures t[j] < |records| && Placed(c, records[t[j]], next.words[j]) {
      if j < |s| {
        assert t[j] == s[j] && next.words[j] == done.words[j];
      }
    }
  }

  lemma CollectedSkip(c: Context, records: seq<F.Record>, k: nat, done: Collected)
    requires k < |records| && SourceOk(c.source, c.staging.segments) && !records[k].detail.Classic?
    requires CollectedOk(c, records, k, done)
    ensures CollectedOk(c, records, k + 1, done)
  {
    hide Placed, TotalsOf, Expected, SourceOk;
    assert ClassicIndices(records, k + 1) == ClassicIndices(records, k);
  }

  ghost predicate CleanRecords(env: F.Env, records: seq<F.Record>) {
    forall a: nat :: a < |records| ==> T.RecordOk(env, records[a]) && T.RecordClean(records[a])
  }

  /** All classic records from the k-th up to the m-th can be patched. */
  predicate AllAcceptable(c: Context, records: seq<F.Record>, k: nat, m: nat) {
    forall a: nat :: k <= a < m && a < |records| && records[a].detail.Classic? ==> Acceptable(c, records[a])
  }

  /** The record at index a is the first from the k-th on that cannot be patched, and e says why. */
  predicate RefusedAt(c: Context, records: seq<F.Record>, k: nat, a: nat, e: RebaseError) {
    && k <= a < |records| && records[a].detail.Classic? && Refusal(c, records[a]) == Some(e)
    && AllAcceptable(c, records, k, a)
  }

  /** Some record from the k-th on is the first that cannot be patched, and e says why. */
  ghost predicate SomeRefused(c: Context, records: seq<F.Record>, k: nat, e: RebaseError) {
    exists a: nat :: RefusedAt(c, records, k, a, e)
  }

  lemma AcceptableStep(c: Context, records: seq<F.Record>, k: nat, m: nat)
    requires k < |records| && k < m
    ensures AllAcceptable(c, records, k, m) <==> (records[k].detail.Classic? ==> Acceptable(c, records[k])) && AllAcceptable(c, records, k + 1, m)
  {
    hide Acceptable;
  }

  lemma {:induction false} CollectHolds(c: Context, i: Inspection, env: F.Env, records: seq<F.Record>, k: nat, done: Collected)
    requires ContextOk(c, i, env) && CleanRecords(env, records) && k <= |records|
    requires SourceOk(c.source, c.staging.segments) && CollectedOk(c, records, k, done)
    ensures CollectWords(c, records, k, done).Ok? ==>
              CollectedOk(c, records, |records|, CollectWords(c, records, k, done).value) && AllAcceptable(c, records, k, |records|)
    ensures CollectWords(c, records, k, done).Err? ==> SomeRefused(c, records, k, CollectWords(c, records, k, done).error)
    decreases |records| - k
  {
    hide ContextOk, T.RecordOk, T.RecordClean, CollectedOk, RecordStep, SourceOk, Placed, Expected, Increment, Acceptable;
    if k < |records| {
      assert T.RecordOk(env, records[k]) && T.RecordClean(records[k]);
      if records[k].detail.Classic? {
        RecordStepExact(c, i, env, records[k], done);
        var next := RecordStep(c, records[k], done);
        if next.Ok? {
          CollectedSnoc(c, records, k, done, next.value);
          CollectHolds(c, i, env, records, k + 1, next.value);
          CollectLater(c, records, k, done, next.value);
        } else {
          assert RefusedAt(c, records, k, k, next.error);
          assert CollectWords(c, records, k, done) == Err(next.error);
        }
      } else {
        CollectedSkip(c, records, k, done);
        CollectHolds(c, i, env, records, k + 1, done);
        CollectLater(c, records, k, done, done);
      }
    }
  }

  /** What follows an acceptable record, or one that is not classic, decides. */
  lemma CollectLater(c: Context, records: seq<F.Record>, k: nat, done: Collected, next: Collected)
    requires k < |records|
    requires if records[k].detail.Classic? then RecordStep(c, records[k], done) == Ok(next) && Acceptable(c, records[k]) else next == done
    requires CollectWords(c, records, k + 1, next).Ok? ==> AllAcceptable(c, records, k + 1, |records|)
    requires CollectWords(c, records, k + 1, next).Err? ==> SomeRefused(c, records, k + 1, CollectWords(c, records, k + 1, next).error)
    ensures CollectWords(c, records, k, done) == CollectWords(c, records, k + 1, next)
    ensures CollectWords(c, records, k, done).Ok? ==> AllAcceptable(c, records, k, |records|)
    ensures CollectWords(c, records, k, done).Err? ==> SomeRefused(c, records, k, CollectWords(c, records, k, done).error)
  {
    hide RecordStep, Acceptable, AllAcceptable;
    var later := CollectWords(c, records, k + 1, next);
    if later.Err? {
      var a: nat :| RefusedAt(c, records, k + 1, a, later.error);
      AcceptableStep(c, records, k, a);
      assert RefusedAt(c, records, k, a, later.error);
    } else {
      AcceptableStep(c, records, k, |records|);
    }
  }

  //////////////////////////////////////////////////////////////////////////////
  // The finished plan
  //////////////////////////////////////////////////////////////////////////////

  predicate ApartWords(a: PatchWord, b: PatchWord) {
    a.End() <= b.offset || b.End() <= a.offset
  }

  lemma DistinctRecordsApart(c: Context, records: seq<F.Record>, a: nat, b: nat, v: PatchWord, w: PatchWord)
    requires a < |records| && b < |records| && a != b && !T.Colliding(records, a, b)
    requires Placed(c, records[a], v) && Placed(c, records[b], w)
    ensures ApartWords(v, w)
  {
    hide AllSeparate, ToLe;
  }

  lemma CollectedApart(c: Context, records: seq<F.Record>, done: Collected)
    requires SourceOk(c.source, c.staging.segments) && CollectedOk(c, records, |records|, done)
    requires forall a: nat, b: nat :: a < |records| && b < |records| ==> !T.Colliding(records, a, b)
    ensures Pairwise(done.words, ApartWords)
  {
    hide Placed, T.Colliding, TotalsOf, ApartWords;
    IndicesIncrease(records, |records|);
    var s := ClassicIndices(records, |records|);
    forall x: nat, y: nat | x < y < |done.words| ensures ApartWords(done.words[x], done.words[y]) {
      assert s[x] < s[y];
      DistinctRecordsApart(c, records, s[x], s[y], done.words[x], done.words[y]);
    }
  }

  /** A word of the right size, inside the arena. */
  predicate WordFits(arena: nat, w: PatchWord) {
    (w.width == 4 || w.width == 8) && |w.after| == 8 && w.End() <= arena
  }

  /** The words of a plan are in order, apart, and inside the arena. */
  ghost predicate WordsOk(arena: nat, words: seq<PatchWord>) {
    WordsInOrder(words) && forall k :: 0 <= k < |words| ==> WordFits(arena, words[k])
  }

  lemma SortedInOrder(arena: nat, words: seq<PatchWord>)
    requires Pairwise(words, ApartWords) && forall k :: 0 <= k < |words| ==> WordFits(arena, words[k])
    ensures WordsOk(arena, Sort(words, WordOffset))
  {
    var t := Sort(words, WordOffset);
    SortSorted(words, WordOffset);
    SortPairwise(words, WordOffset, ApartWords);
    forall k | 0 <= k < |t| ensures WordFits(arena, t[k]) {
      SortMembers(words, WordOffset, t[k]);
    }
    forall k: nat | k < |t| - 1 ensures t[k].End() <= t[k + 1].offset {
      NeighboursInOrder(arena, t, k);
    }
  }

  lemma NeighboursInOrder(arena: nat, t: seq<PatchWord>, k: nat)
    requires SortedBy(t, WordOffset) && Pairwise(t, ApartWords) && k < |t| - 1 && WordFits(arena, t[k + 1])
    ensures t[k].End() <= t[k + 1].offset
  {
    assert ApartWords(t[k], t[k + 1]) && WordOffset(t[k]) <= WordOffset(t[k + 1]);
  }

  /** Word w patches the classic record at index a. */
  ghost predicate Patches(c: Context, records: seq<F.Record>, w: PatchWord, a: nat) {
    a < |records| && records[a].detail.Classic? && Placed(c, records[a], w)
  }

  ghost predicate PatchesSome(c: Context, records: seq<F.Record>, w: PatchWord) {
    exists a: nat :: Patches(c, records, w, a)
  }

  ghost predicate Patched(c: Context, records: seq<F.Record>, words: seq<PatchWord>, a: nat) {
    exists w :: w in words && Patches(c, records, w, a)
  }

  /** What a finished plan promises about the audit it was made from. */
  ghost predicate PlanMade(c: Context, st: F.State, p: RebasePlan)
    requires SourceOk(c.source, c.staging.segments)
  {
    && p.staging == c.staging && WordsOk(c.staging.arenaSize, p.words)
    && (forall k :: 0 <= k < |p.words| ==> PatchesSome(c, st.records, p.words[k]))
    && (forall a: nat :: a < |st.records| && st.records[a].detail.Classic? ==> Patched(c, st.records, p.words, a))
    && p.totals == TotalsOf(Expected(c.source, c.staging), p.words)
    && p.chainWords == T.ChainCount(st.records) && p.headerRanges == |c.images|
    && p.nonTarget + p.totals.written == c.staging.arenaSize
  }

  function AddTotals(a: Totals, b: Totals): Totals {
    Totals(a.width4 + b.width4, a.width8 + b.width8, a.written + b.written, a.changed + b.changed)
  }

  lemma {:induction false} TotalsCons(expected: seq<byte>, w: PatchWord, rest: seq<PatchWord>)
    ensures TotalsOf(expected, [w] + rest) == AddTotals(Increment(Totals(0, 0, 0, 0), expected, w), TotalsOf(expected, rest))
  {
    hide Changes;
    var all := [w] + rest;
    if rest == [] {
      assert all[..|all| - 1] == [];
    } else {
      assert all[..|all| - 1] == [w] + rest[..|rest| - 1];
      TotalsCons(expected, w, rest[..|rest| - 1]);
    }
  }

  lemma {:induction false} TotalsInsert(expected: seq<byte>, s: seq<PatchWord>, w: PatchWord)
    ensures TotalsOf(expected, Insert(s, w, WordOffset)) == AddTotals(Increment(Totals(0, 0, 0, 0), expected, w), TotalsOf(expected, s))
  {
    hide TotalsOf, Changes;
    if s == [] || WordOffset(w) <= WordOffset(s[0]) {
      TotalsCons(expected, w, s);
    } else {
      TotalsInsert(expected, s[1..], w);
      TotalsCons(expected, s[0], Insert(s[1..], w, WordOffset));
      TotalsCons(expected, s[0], s[1..]);
      assert s == [s[0]] + s[1..];
    }
  }

  /** Sorting does not change the totals. */
  lemma {:induction false} TotalsSort(expected: seq<byte>, s: seq<PatchWord>)
    ensures TotalsOf(expected, Sort(s, WordOffset)) == TotalsOf(expected, s)
  {
    hide TotalsOf, Changes, Increment;
    if s != [] {
      TotalsSort(expected, s[1..]);
      TotalsInsert(expected, Sort(s[1..], WordOffset), s[0]);
      TotalsCons(expected, s[0], s[1..]);
      assert s == [s[0]] + s[1..];
    }
  }

  /** Words in order inside the arena have no more bytes than the arena. */
  lemma {:induction false} WrittenFits(expected: seq<byte>, arena: nat, words: seq<PatchWord>)
    requires WordsOk(arena, words)
    ensures TotalsOf(expected, words).written <= (if words == [] then 0 else words[|words| - 1].End())
    ensures TotalsOf(expected, words).written <= arena
  {
    hide Changes;
    if |words| > 1 {
      var front := words[..|words| - 1];
      WrittenFits(expected, arena, front);
      assert words[|words| - 2].End() <= words[|words| - 2 + 1].offset;
    } else if |words| == 1 {
      assert words[..0] == [];
    }
    assert words != [] ==> WordFits(arena, words[|words| - 1]);
  }

  lemma {:induction false} ExecutablesAreMembers(members: seq<Image>)
    ensures forall k :: 0 <= k < |Executables(members)| ==> Executables(members)[k] in members && Executables(members)[k].fileType == 2
    decreases |members|
  {
    if members != [] {
      ExecutablesAreMembers(members[1..]);
    }
  }

  lemma CollectedPatches(c: Context, records: seq<F.Record>, done: Collected)
    requires SourceOk(c.source, c.staging.segments) && CollectedOk(c, records, |records|, done)
    ensures forall k :: 0 <= k < |done.words| ==> PatchesSome(c, records, done.words[k]) && WordFits(c.staging.arenaSize, done.words[k])
    ensures forall a: nat :: a < |records| && records[a].detail.Classic? ==> Patched(c, records, done.words, a)
  {
    hide Patches, CollectedOk, WordFits;
    IndicesIncrease(records, |records|);
    var s := ClassicIndices(records, |records|);
    CollectedLength(c, records, done);
    forall k: nat | k < |done.words| ensures PatchesSome(c, records, done.words[k]) && WordFits(c.staging.arenaSize, done.words[k]) {
      CollectedAt(c, records, done, k);
    }
    forall a: nat | a < |records| && records[a].detail.Classic? ensures Patched(c, records, done.words, a) {
      var j: nat :| j < |s| && s[j] == a;
      CollectedAt(c, records, done, j);
      assert done.words[j] in done.words;
    }
  }

  lemma CollectedLength(c: Context, records: seq<F.Record>, done: Collected)
    requires SourceOk(c.source, c.staging.segments) && CollectedOk(c, records, |records|, done)
    ensures |done.words| == |ClassicIndices(records, |records|)|
  {
    hide Placed, TotalsOf;
  }

  lemma CollectedAt(c: Context, records: seq<F.Record>, done: Collected, k: nat)
    requires SourceOk(c.source, c.staging.segments) && CollectedOk(c, records, |records|, done) && k < |done.words|
    ensures k < |ClassicIndices(records, |records|)|
    ensures Patches(c, records, done.words[k], ClassicIndices(records, |records|)[k]) && WordFits(c.staging.arenaSize, done.words[k])
  {
    IndicesIncrease(records, |records|);
    hide Placed, TotalsOf, WordFits;
    var a := ClassicIndices(records, |records|)[k];
    PlacedFits(c, records[a], done.words[k]);
  }

  lemma PlacedFits(c: Context, r: F.Record, w: PatchWord)
    requires Placed(c, r, w)
    ensures WordFits(c.staging.arenaSize, w)
  {
    hide AllSeparate;
  }

  lemma SortedPatches(c: Context, records: seq<F.Record>, words: seq<PatchWord>)
    requires forall k :: 0 <= k < |words| ==> PatchesSome(c, records, words[k])
    requires forall a: nat :: a < |records| && records[a].detail.Classic? ==> Patched(c, records, words, a)
    ensures var t := Sort(words, WordOffset);
            && (forall k :: 0 <= k < |t| ==> PatchesSome(c, records, t[k]))
            && (forall a: nat :: a < |records| && records[a].detail.Classic? ==> Patched(c, records, t, a))
  {
    hide PatchesSome, Patches, Sort;
    var t := Sort(words, WordOffset);
    forall k | 0 <= k < |t| ensures PatchesSome(c, records, t[k]) {
      SortMembers(words, WordOffset, t[k]);
    }
    forall a: nat | a < |records| && records[a].detail.Classic? ensures Patched(c, records, t, a) {
      var w :| w in words && Patches(c, records, w, a);
      SortMembers(words, WordOffset, w);
    }
  }

  /** From the collected words to the finished plan. */
  lemma PlanFinished(c: Context, st: F.State, all: Collected)
    requires SourceOk(c.source, c.staging.segments) && CollectedOk(c, st.records, |st.records|, all)
    requires forall a: nat, b: nat :: a < |st.records| && b < |st.records| ==> !T.Colliding(st.records, a, b)
    requires st.chainRecords == T.ChainCount(st.records)
    ensures var words := Sort(all.words, WordOffset);
            && WordsInOrder(words) && all.totals.written <= c.staging.arenaSize
            && PlanMade(c, st, RebasePlan(c.staging, words, all.totals, c.staging.arenaSize - all.totals.written, st.chainRecords, |c.images|))
  {
    hide *;
    var words := Sort(all.words, WordOffset);
    CollectedApart(c, st.records, all);
    CollectedPatches(c, st.records, all);
    SortedInOrder(c.staging.arenaSize, all.words);
    SortedPatches(c, st.records, all.words);
    TotalsSort(Expected(c.source, c.staging), all.words);
    WrittenFits(Expected(c.source, c.staging), c.staging.arenaSize, words);
    CollectedTotals(c, st.records, all);
    PlanAssembled(c, st, all, words);
  }

  lemma CollectedTotals(c: Context, records: seq<F.Record>, all: Collected)
    requires SourceOk(c.source, c.staging.segments) && CollectedOk(c, records, |records|, all)
    ensures all.totals == TotalsOf(Expected(c.source, c.staging), all.words)
  {
    hide Placed, TotalsOf, Expected;
  }

  lemma PlanAssembled(c: Context, st: F.State, all: Collected, words: seq<PatchWord>)
    requires SourceOk(c.source, c.staging.segments) && WordsOk(c.staging.arenaSize, words)
    requires forall k :: 0 <= k < |words| ==> PatchesSome(c, st.records, words[k])
    requires forall a: nat :: a < |st.records| && st.records[a].detail.Classic? ==> Patched(c, st.records, words, a)
    requires all.totals == TotalsOf(Expected(c.source, c.staging), words) && all.totals.written <= c.staging.arenaSize
    requires st.chainRecords == T.ChainCount(st.records)
    ensures WordsInOrder(words)
    ensures PlanMade(c, st, RebasePlan(c.staging, words, all.totals, c.staging.arenaSize - all.totals.written, st.chainRecords, |c.images|))
  {
    hide WordsInOrder, WordFits, PatchesSome, Patched, TotalsOf, Expected, SourceOk, T.ChainCount;
  }

  lemma ContextHolds(source: seq<byte>, i: Inspection, slide: u32)
    requires Accepted(source, i) && FromInspection(source, i, 4096).Ok? && |Executables(i.members)| == 1
    ensures F.EnvOf(source, DEFAULT_LIMITS, i).Ok?
    ensures ContextOk(ContextOf(source, i, slide, FromInspection(source, i, 4096).value, Executables(i.members)[0]), i, F.EnvOf(source, DEFAULT_LIMITS, i).value)
    ensures SourceOk(source, FromInspection(source, i, 4096).value.segments)
  {
    PlanReadable(source, i, 4096);
    ExecutablesAreMembers(i.members);
    T.EnvHolds(source, DEFAULT_LIMITS, i);
    hide Accepted, FromInspection, F.EnvOf, T.EnvOk, Executables, SourceOk, PlanOk;
  }

  /** The context the records of a collection are checked in. */
  function ContextAt(source: seq<byte>, i: Inspection, slide: u32): Context
    requires FromInspection(source, i, 4096).Ok? && |Executables(i.members)| == 1
  {
    ContextOf(source, i, slide, FromInspection(source, i, 4096).value, Executables(i.members)[0])
  }

  /** Why a plan is refused; nothing here blames a fact the earlier stages have established. */
  ghost predicate Refused(source: seq<byte>, i: Inspection, slide: u32, e: RebaseError) {
    match e
    case StagingFailed(s) => FromInspection(source, i, 4096) == Err(s) && (s == AddressOverflow || s == ArenaTooLarge)
    case AuditFailed(a) => F.Audit(source, DEFAULT_LIMITS, i) == Err(a) && a == F.AuditLimit
    case AuditIssues => F.Audit(source, DEFAULT_LIMITS, i).Ok? && F.Audit(source, DEFAULT_LIMITS, i).value.issues != []
    case ExecutableMemberCount => |Executables(i.members)| != 1
    case EmptyClassicTable => F.Audit(source, DEFAULT_LIMITS, i).Ok? && F.Audit(source, DEFAULT_LIMITS, i).value.classicRecords == 0
    case _ => Plannable(source, i) && SomeRefused(ContextAt(source, i, slide), F.Audit(source, DEFAULT_LIMITS, i).value.records, 0, e)
  }

  /** Every classic record the audit found can be patched. */
  ghost predicate RecordsAcceptable(source: seq<byte>, i: Inspection, slide: u32)
    requires Plannable(source, i)
  {
    AllAcceptable(ContextAt(source, i, slide), F.Audit(source, DEFAULT_LIMITS, i).value.records, 0, |F.Audit(source, DEFAULT_LIMITS, i).value.records|)
  }

  /**
   The plan of a rebase over an accepted collection: one patched word for every classic record and no
   other, clear of every header. There is a plan exactly when staging and audit raise nothing, there is
   one executable member and a classic record, and every classic record is acceptable; an error names
   its cause, and the first record that breaks a condition. After a clean audit no two words touch, so a
   plan is refused for conflicts only if the audit reported an issue.
   */
  lemma PlanRebaseExact(source: seq<byte>, i: Inspection, slide: u32)
    requires Accepted(source, i)
    ensures PlanRebase(source, i, slide).Ok? <==> Plannable(source, i) && RecordsAcceptable(source, i, slide)
    ensures match PlanRebase(source, i, slide)
            case Ok(p) =>
              && |Executables(i.members)| == 1 && F.Audit(source, DEFAULT_LIMITS, i).Ok? && SourceOk(source, p.staging.segments)
              && F.Audit(source, DEFAULT_LIMITS, i).value.issues == []
              && PlanMade(ContextOf(source, i, slide, p.staging, Executables(i.members)[0]), F.Audit(source, DEFAULT_LIMITS, i).value, p)
            case Err(e) => Refused(source, i, slide, e)
  {
    hide *;
    DefaultLimits();
    PlanExact(source, i, 4096);
    T.AuditOnlyLimits(source, DEFAULT_LIMITS, i);
    EarlyRefusals(source, i, slide);
    if Plannable(source, i) {
      PlannableParts(source, i);
      ContextHolds(source, i, slide);
      var staged, st := FromInspection(source, i, 4096).value, F.Audit(source, DEFAULT_LIMITS, i).value;
      var c := ContextOf(source, i, slide, staged, Executables(i.members)[0]);
      ContextImages(source, i, slide, staged, Executables(i.members)[0]);
      PlanFromAudit(c, i, F.EnvOf(source, DEFAULT_LIMITS, i).value, st);
      LatePlan(source, i, slide);
    }
  }

  /** Nothing stands in the way of collecting the words. */
  predicate Plannable(source: seq<byte>, i: Inspection) {
    && FromInspection(source, i, 4096).Ok? && |Executables(i.members)| == 1 && F.Audit(source, DEFAULT_LIMITS, i).Ok?
    && F.Audit(source, DEFAULT_LIMITS, i).value.issues == [] && F.Audit(source, DEFAULT_LIMITS, i).value.classicRecords != 0
  }

  lemma PlannableParts(source: seq<byte>, i: Inspection)
    requires Plannable(source, i)
    ensures FromInspection(source, i, 4096).Ok? && |Executables(i.members)| == 1 && F.Audit(source, DEFAULT_LIMITS, i).Ok?
    ensures F.Audit(source, DEFAULT_LIMITS, i).value.issues == [] && F.Audit(source, DEFAULT_LIMITS, i).value.classicRecords != 0
  {
    hide FromInspection, Executables, F.Audit;
  }

  lemma EarlyRefusals(source: seq<byte>, i: Inspection, slide: u32)
    requires FromInspection(source, i, 4096).Err? ==> FromInspection(source, i, 4096).error == AddressOverflow || FromInspection(source, i, 4096).error == ArenaTooLarge
    requires F.Audit(source, DEFAULT_LIMITS, i).Err? ==> F.Audit(source, DEFAULT_LIMITS, i).error == F.AuditLimit
    ensures !Plannable(source, i) ==> PlanRebase(source, i, slide).Err? && Refused(source, i, slide, PlanRebase(source, i, slide).error)
  {
    hide FromInspection, Executables, F.Audit, CollectWords, Sort, WordsInOrder, ContextOf;
  }

  lemma LatePlan(source: seq<byte>, i: Inspection, slide: u32)
    requires Plannable(source, i) && |Executables(i.members)| == 1 && FromInspection(source, i, 4096).Ok? && F.Audit(source, DEFAULT_LIMITS, i).Ok?
    requires SourceOk(source, FromInspection(source, i, 4096).value.segments)
    requires var staged, st := FromInspection(source, i, 4096).value, F.Audit(source, DEFAULT_LIMITS, i).value;
             var c := ContextOf(source, i, slide, staged, Executables(i.members)[0]);
             var collected := CollectWords(c, st.records, 0, NO_WORDS);
             && c.source == source && c.staging == staged && |c.images| == |i.members| + 1
             && (collected.Ok? ==>
                   var words := Sort(collected.value.words, WordOffset);
                   && WordsInOrder(words) && collected.value.totals.written <= c.staging.arenaSize && AllAcceptable(c, st.records, 0, |st.records|)
                   && PlanMade(c, st, RebasePlan(c.staging, words, collected.value.totals, c.staging.arenaSize - collected.value.totals.written, st.chainRecords, |c.images|)))
             && (collected.Err? ==> RecordError(collected.error) && SomeRefused(c, st.records, 0, collected.error))
    ensures PlanRebase(source, i, slide).Ok? <==> RecordsAcceptable(source, i, slide)
    ensures match PlanRebase(source, i, slide)
            case Ok(p) =>
              && SourceOk(source, p.staging.segments) && F.Audit(source, DEFAULT_LIMITS, i).value.issues == []
              && PlanMade(ContextOf(source, i, slide, p.staging, Executables(i.members)[0]), F.Audit(source, DEFAULT_LIMITS, i).value, p)
            case Err(e) => Refused(source, i, slide, e)
  {
    hide FromInspection, Executables, F.Audit, CollectWords, Sort, WordsInOrder, ContextOf, PlanMade, SourceOk, AllAcceptable, Refusal;
    var c, st := ContextAt(source, i, slide), F.Audit(source, DEFAULT_LIMITS, i).value;
    if CollectWords(c, st.records, 0, NO_WORDS).Err? {
      NotAllAcceptable(c, st.records, CollectWords(c, st.records, 0, NO_WORDS).error);
    }
  }

  lemma NotAllAcceptable(c: Context, records: seq<F.Record>, e: RebaseError)
    requires SomeRefused(c, records, 0, e)
    ensures !AllAcceptable(c, records, 0, |records|)
  {
    hide Acceptable;
    var a: nat :| RefusedAt(c, records, 0, a, e);
  }

  lemma DefaultLimits()
    ensures F.LimitsOk(DEFAULT_LIMITS) && PageSizeOk(4096)
  {
  }

  lemma ContextImages(source: seq<byte>, i: Inspection, slide: u32, staging: S.Plan, kernel: Image)
    ensures var c := ContextOf(source, i, slide, staging, kernel);
            c.source == source && c.staging == staging && |c.images| == |i.members| + 1 && c.slide == slide
  {
  }

  lemma PlanFromAudit(c: Context, i: Inspection, env: F.Env, st: F.State)
    requires ContextOk(c, i, env) && T.Finished(env, st) && st.issues == [] && SourceOk(c.source, c.staging.segments)
    ensures CollectWords(c, st.records, 0, NO_WORDS).Ok? ==>
              var all := CollectWords(c, st.records, 0, NO_WORDS).value;
              var words := Sort(all.words, WordOffset);
              && WordsInOrder(words) && all.totals.written <= c.staging.arenaSize && AllAcceptable(c, st.records, 0, |st.records|)
              && PlanMade(c, st, RebasePlan(c.staging, words, all.totals, c.staging.arenaSize - all.totals.written, st.chainRecords, |c.images|))
    ensures CollectWords(c, st.records, 0, NO_WORDS).Err? ==>
              RecordError(CollectWords(c, st.records, 0, NO_WORDS).error) && SomeRefused(c, st.records, 0, CollectWords(c, st.records, 0, NO_WORDS).error)
  {
    hide *;
    T.CleanAudit(env, st);
    T.FinishedCounts(env, st);
    CleanAll(env, st);
    NothingCollected(c, st.records);
    CollectHolds(c, i, env, st.records, 0, NO_WORDS);
    var collected := CollectWords(c, st.records, 0, NO_WORDS);
    if collected.Ok? {
      PlanFinished(c, st, collected.value);
    } else {
      RefusedForRecord(c, st.records, collected.error);
    }
  }

  /** The errors a record is refused with. */
  predicate RecordError(e: RebaseError) {
    e == UnsupportedClassicProfile || e == OutsideKernelFileMapping || e == HeaderWrite || e == ValueOverflow
  }

  lemma RefusedForRecord(c: Context, records: seq<F.Record>, e: RebaseError)
    requires SomeRefused(c, records, 0, e)
    ensures RecordError(e)
  {
    hide AllAcceptable, Acceptable;
    var a: nat :| RefusedAt(c, records, 0, a, e);
  }

  lemma CleanAll(env: F.Env, st: F.State)
    requires T.RecordsOk(env, st.records) && forall a: nat :: a < |st.records| ==> T.RecordClean(st.records[a])
    ensures CleanRecords(env, st.records)
  {
    hide T.RecordOk, T.RecordClean;
  }

  lemma NothingCollected(c: Context, records: seq<F.Record>)
    requires SourceOk(c.source, c.staging.segments)
    ensures CollectedOk(c, records, 0, NO_WORDS)
  {
    hide Expected, SourceOk;
  }

  //////////////////////////////////////////////////////////////////////////////
  // The rebased arena
  //////////////////////////////////////////////////////////////////////////////

  predicate Writes(w: PatchWord, x: int) {
    w.offset <= x < w.End()
  }

  /** The byte of the rebased arena: the patched byte of the last word there, or the staged byte. */
  function TargetAt(expected: seq<byte>, words: seq<PatchWord>, x: nat): byte
    requires x < |expected| && forall k :: 0 <= k < |words| ==> |words[k].after| == 8 && words[k].width <= 8
  {
    if words == [] then expected[x]
    else
      var last := words[|words| - 1];
      if Writes(last, x) then last.after[x - last.offset] else TargetAt(expected, words[..|words| - 1], x)
  }

  predicate Sized(words: seq<PatchWord>) {
    forall k :: 0 <= k < |words| ==> |words[k].after| == 8 && words[k].width <= 8
  }

  function Target(expected: seq<byte>, words: seq<PatchWord>): (r: seq<byte>)
    requires Sized(words)
    ensures |r| == |expected|
    ensures forall x :: 0 <= x < |r| ==> r[x] == TargetAt(expected, words, x)
  {
    seq(|expected|, x requires 0 <= x < |expected| => TargetAt(expected, words, x))
  }

  lemma WordsSized(arena: nat, words: seq<PatchWord>)
    requires WordsOk(arena, words)
    ensures Sized(words)
  {
    forall k | 0 <= k < |words| ensures |words[k].after| == 8 && words[k].width <= 8 {
      assert WordFits(arena, words[k]);
    }
  }

  lemma {:induction false} WordsFollow(arena: nat, words: seq<PatchWord>, i: nat, j: nat)
    requires WordsOk(arena, words) && i < j < |words|
    ensures words[i].End() <= words[j].offset
    decreases j
  {
    if i < j - 1 {
      WordsFollow(arena, words, i, j - 1);
      assert WordFits(arena, words[j - 1]) && words[j - 1].End() <= words[j - 1 + 1].offset;
    }
  }

  lemma {:induction false} Untouched(expected: seq<byte>, words: seq<PatchWord>, x: nat)
    requires x < |expected| && Sized(words) && forall k :: 0 <= k < |words| ==> !Writes(words[k], x)
    ensures TargetAt(expected, words, x) == expected[x]
  {
    if words != [] {
      Untouched(expected, words[..|words| - 1], x);
    }
  }

  lemma {:induction false} Touched(expected: seq<byte>, words: seq<PatchWord>, x: nat, k: nat)
    requires x < |expected| && Sized(words) && k < |words| && Writes(words[k], x)
    requires forall j :: k < j < |words| ==> !Writes(words[j], x)
    ensures TargetAt(expected, words, x) == words[k].after[x - words[k].offset]
  {
    if k < |words| - 1 {
      Touched(expected, words[..|words| - 1], x, k);
    }
  }

  /** A word of a plan is found in the rebased arena, byte for byte. */
  lemma WordWritten(expected: seq<byte>, words: seq<PatchWord>, k: nat)
    requires WordsOk(|expected|, words) && k < |words|
    ensures Sized(words) && words[k].End() <= |expected|
    ensures Target(expected, words)[words[k].offset..words[k].End()] == words[k].after[..words[k].width]
  {
    WordsSized(|expected|, words);
    assert WordFits(|expected|, words[k]);
    hide WordsOk, Sized, TargetAt;
    var w := words[k];
    forall x: nat | w.offset <= x < w.End() ensures Target(expected, words)[x] == w.after[x - w.offset] {
      forall j: nat | k < j < |words| ensures !Writes(words[j], x) {
        WordsFollow(|expected|, words, k, j);
      }
      Touched(expected, words, x, k);
    }
  }

  /** Bytes that no word writes are the staged bytes. */
  lemma GapKept(expected: seq<byte>, words: seq<PatchWord>, from: nat, to: nat)
    requires Sized(words) && from <= to <= |expected|
    requires forall k :: 0 <= k < |words| ==> words[k].End() <= from || to <= words[k].offset
    ensures Target(expected, words)[from..to] == expected[from..to]
  {
    hide Sized, TargetAt;
    forall x: nat | from <= x < to ensures Target(expected, words)[x] == expected[x] {
      Untouched(expected, words, x);
    }
  }

  lemma TailKept(expected: seq<byte>, words: seq<PatchWord>, from: nat)
    requires Sized(words) && from <= |expected| && forall k :: 0 <= k < |words| ==> words[k].End() <= from
    ensures Target(expected, words)[from..] == expected[from..]
  {
    hide Sized, Target;
    GapKept(expected, words, from, |expected|);
    assert expected[from..|expected|] == expected[from..];
    assert Target(expected, words)[from..|expected|] == Target(expected, words)[from..];
  }

  //////////////////////////////////////////////////////////////////////////////
  // What the rebase means
  //////////////////////////////////////////////////////////////////////////////

  lemma {:induction false} LeAtMost(b: seq<byte>, v: nat)
    requires b == ToLe(v, |b|) && v < Pow2(8 * |b|)
    ensures Le(b) == v
  {
    LeToLe(v, |b|);
  }

  /** The patched bytes are the little-endian bytes of the old value plus the slide. */
  lemma PatchedValue(c: Context, r: F.Record, w: PatchWord)
    requires WordOk(c, r, w)
    ensures |w.after| == 8 && Le(w.after[..w.width]) == r.detail.stored.value + c.slide
  {
    var v := r.detail.stored.value + c.slide;
    ToLePrefix(v, 8, w.width);
    Pow2Word();
    hide Pow2, Le, ToLe;
    LeAtMost(w.after[..w.width], v);
  }

  /** The arena slice of a record's write. */
  function SliceAt(arena: seq<byte>, minimum: nat, address: nat, width: nat): seq<byte> {
    if minimum <= address && address - minimum + width <= |arena| then arena[address - minimum..address - minimum + width] else []
  }

  /** Every classic record: its word in the rebased arena is its word in the staged arena plus the slide, without wrap. */
  ghost predicate Slid(c: Context, r: F.Record, before: seq<byte>, after: seq<byte>) {
    && r.address.Some? && (r.width == 4 || r.width == 8)
    && |SliceAt(before, c.staging.minimum, r.address.value, r.width)| == r.width == |SliceAt(after, c.staging.minimum, r.address.value, r.width)|
    && Le(SliceAt(after, c.staging.minimum, r.address.value, r.width)) == Le(SliceAt(before, c.staging.minimum, r.address.value, r.width)) + c.slide
  }

  /** A record's bytes are the same in both arenas. */
  ghost predicate Preserved(c: Context, address: nat, width: nat, before: seq<byte>, after: seq<byte>) {
    && |SliceAt(before, c.staging.minimum, address, width)| == width
    && SliceAt(after, c.staging.minimum, address, width) == SliceAt(before, c.staging.minimum, address, width)
  }

  lemma ClassicSlid(c: Context, i: Inspection, env: F.Env, st: F.State, p: RebasePlan, a: nat)
    requires ContextOk(c, i, env) && SourceOk(c.source, c.staging.segments) && PlanMade(c, st, p)
    requires a < |st.records| && T.RecordOk(env, st.records[a]) && st.records[a].detail.Classic?
    ensures Sized(p.words) && Slid(c, st.records[a], Expected(c.source, c.staging), Target(Expected(c.source, c.staging), p.words))
  {
    hide *;
    var r, expected := st.records[a], Expected(c.source, c.staging);
    var k := PlanWord(c, st, p, a);
    WordPlace(c, r, p.words[k]);
    ArenaUnderRecord(c, i, env, r);
    StoredIs(env, r);
    ContextParts(c, i, env);
    PlanOrder(c, st, p);
    WordWritten(expected, p.words, k);
    PatchedValue(c, r, p.words[k]);
    UnderIs(c, r.address.value, r.file.value, r.width);
    SlidFromBytes(c, r, p.words[k], expected, Target(expected, p.words));
  }

  lemma PlanWord(c: Context, st: F.State, p: RebasePlan, a: nat) returns (k: nat)
    requires SourceOk(c.source, c.staging.segments) && PlanMade(c, st, p) && a < |st.records| && st.records[a].detail.Classic?
    ensures k < |p.words| && WordOk(c, st.records[a], p.words[k]) && AllSeparate(c.images, st.records[a].address.value, st.records[a].width)
  {
    hide WordsOk, PatchesSome, TotalsOf, Placed, Expected, SourceOk;
    assert Patched(c, st.records, p.words, a);
    var w :| w in p.words && Patches(c, st.records, w, a);
    k :| 0 <= k < |p.words| && p.words[k] == w;
    PlacedWord(c, st.records[a], w);
  }

  lemma PlanOrder(c: Context, st: F.State, p: RebasePlan)
    requires SourceOk(c.source, c.staging.segments) && PlanMade(c, st, p)
    ensures WordsOk(|Expected(c.source, c.staging)|, p.words) && p.staging == c.staging
    ensures |Expected(c.source, c.staging)| == c.staging.arenaSize
  {
    hide WordsOk, PatchesSome, Patched, TotalsOf, SourceOk;
  }

  lemma WordPlace(c: Context, r: F.Record, w: PatchWord)
    requires WordOk(c, r, w)
    ensures r.file.Some? && r.address.Some? && r.detail.Classic? && w.width == r.width
  {
  }

  lemma UnderIs(c: Context, address: nat, file: nat, width: nat)
    requires SourceOk(c.source, c.staging.segments) && Under(c, address, file, width)
    ensures c.staging.minimum <= address && address - c.staging.minimum + width <= c.staging.arenaSize && file + width <= |c.source|
    ensures |Expected(c.source, c.staging)| == c.staging.arenaSize
    ensures SliceAt(Expected(c.source, c.staging), c.staging.minimum, address, width) == c.source[file..file + width]
  {
    hide SourceOk, ByteAt;
  }

  lemma SlidFromBytes(c: Context, r: F.Record, w: PatchWord, before: seq<byte>, after: seq<byte>)
    requires WordOk(c, r, w) && |before| == |after| == c.staging.arenaSize && |w.after| == 8
    requires r.file.value + r.width <= |c.source| && r.detail.stored == Some(Le(c.source[r.file.value..r.file.value + r.width]))
    requires SliceAt(before, c.staging.minimum, r.address.value, r.width) == c.source[r.file.value..r.file.value + r.width]
    requires after[w.offset..w.End()] == w.after[..w.width]
    requires Le(w.after[..w.width]) == r.detail.stored.value + c.slide
    ensures Slid(c, r, before, after)
  {
    hide Le, ToLe;
  }

  lemma PlacedWord(c: Context, r: F.Record, w: PatchWord)
    requires Placed(c, r, w)
    ensures WordOk(c, r, w) && AllSeparate(c.images, r.address.value, r.width)
  {
  }

  /** No word of a plan writes into a range that is clear of every word's record. */
  lemma RangePreserved(c: Context, st: F.State, p: RebasePlan, address: nat, width: nat)
    requires SourceOk(c.source, c.staging.segments) && PlanMade(c, st, p)
    requires c.staging.minimum <= address && address - c.staging.minimum + width <= c.staging.arenaSize
    requires forall a: nat :: a < |st.records| && st.records[a].detail.Classic? && st.records[a].address.Some? ==>
               st.records[a].address.value + st.records[a].width <= address || address + width <= st.records[a].address.value
    ensures Sized(p.words)
    ensures Preserved(c, address, width, Expected(c.source, c.staging), Target(Expected(c.source, c.staging), p.words))
  {
    hide SourceOk, PlanMade, Expected, Target, WordsOk, Sized;
    PlanOrder(c, st, p);
    var expected, from := Expected(c.source, c.staging), address - c.staging.minimum;
    WordsSized(|expected|, p.words);
    forall k: nat | k < |p.words| ensures p.words[k].End() <= from || from + width <= p.words[k].offset {
      var a := WordRecord(c, st, p, k);
    }
    GapKept(expected, p.words, from, from + width);
  }

  /** The record a word of a plan patches. */
  lemma WordRecord(c: Context, st: F.State, p: RebasePlan, k: nat) returns (a: nat)
    requires SourceOk(c.source, c.staging.segments) && PlanMade(c, st, p) && k < |p.words|
    ensures a < |st.records| && st.records[a].detail.Classic? && st.records[a].address.Some?
    ensures p.words[k].offset + c.staging.minimum == st.records[a].address.value && p.words[k].width == st.records[a].width
  {
    hide SourceOk, WordsOk, Patched, TotalsOf, Placed, Expected;
    assert PatchesSome(c, st.records, p.words[k]);
    a :| Patches(c, st.records, p.words[k], a);
    PlacedWord(c, st.records[a], p.words[k]);
    WordSpan(c, st.records[a], p.words[k]);
  }

  lemma WordSpan(c: Context, r: F.Record, w: PatchWord)
    requires WordOk(c, r, w)
    ensures r.address.Some? && r.detail.Classic? && w.offset + c.staging.minimum == r.address.value && w.width == r.width
  {
  }

  /** Every word of every pointer chain is the same before and after the rebase. */
  lemma ChainPreserved(c: Context, i: Inspection, env: F.Env, st: F.State, p: RebasePlan, a: nat)
    requires ContextOk(c, i, env) && SourceOk(c.source, c.staging.segments) && PlanMade(c, st, p)
    requires T.RecordsOk(env, st.records) && a < |st.records| && st.records[a].detail.Chain11?
    requires forall x: nat, y: nat :: x < |st.records| && y < |st.records| ==> !T.Colliding(st.records, x, y)
    requires forall x: nat :: x < |st.records| ==> T.RecordClean(st.records[x])
    ensures Sized(p.words) && st.records[a].address.Some? && st.records[a].width == 8
    ensures Preserved(c, st.records[a].address.value, 8, Expected(c.source, c.staging), Target(Expected(c.source, c.staging), p.words))
  {
    var r := st.records[a];
    RecordAt(env, st.records, a);
    ChainWidth(env, r);
    hide ContextOk, SourceOk, PlanMade, T.RecordOk, T.RecordsOk, T.RecordClean, T.Colliding, Expected, Target, Under;
    ArenaUnderRecord(c, i, env, r);
    UnderIs(c, r.address.value, r.file.value, r.width);
    forall x: nat | x < |st.records| && st.records[x].detail.Classic? && st.records[x].address.Some?
      ensures st.records[x].address.value + st.records[x].width <= r.address.value || r.address.value + 8 <= st.records[x].address.value
    {
      assert T.RecordClean(st.records[x]) && !T.Colliding(st.records, x, a);
      RecordAt(env, st.records, x);
      ClassicAside(env, st.records, x, a);
    }
    RangePreserved(c, st, p, r.address.value, 8);
  }

  lemma RecordAt(env: F.Env, records: seq<F.Record>, a: nat)
    requires T.RecordsOk(env, records) && a < |records|
    ensures T.RecordOk(env, records[a])
  {
  }

  /** A clean classic record and a chain record that do not collide are apart. */
  lemma ClassicAside(env: F.Env, records: seq<F.Record>, x: nat, a: nat)
    requires x < |records| && a < |records| && T.RecordOk(env, records[x]) && T.RecordOk(env, records[a])
    requires records[x].detail.Classic? && T.RecordClean(records[x]) && records[a].detail.Chain11? && !T.Colliding(records, x, a)
    ensures records[x].address.Some? && records[a].address.Some?
    ensures records[x].address.value + records[x].width <= records[a].address.value || records[a].address.value + 8 <= records[x].address.value
  {
    hide F.FileLocation, F.OverlapOf;
  }

  lemma ChainWidth(env: F.Env, r: F.Record)
    requires T.RecordOk(env, r) && r.detail.Chain11?
    ensures r.width == 8 && r.file.Some? && r.address.Some?
  {
    hide F.FileLocation, F.OverlapOf;
  }

  /** Every header, of the collection and of every member, is the same before and after the rebase. */
  lemma HeaderPreserved(c: Context, i: Inspection, env: F.Env, st: F.State, p: RebasePlan, j: nat)
    requires ContextOk(c, i, env) && SourceOk(c.source, c.staging.segments) && PlanMade(c, st, p) && j < |c.images|
    requires T.RecordsOk(env, st.records)
    ensures Sized(p.words)
    ensures Preserved(c, c.images[j].headerAddress, c.images[j].HeaderSize(), Expected(c.source, c.staging), Target(Expected(c.source, c.staging), p.words))
  {
    var image := c.images[j];
    HeaderInArena(c, i, env, j);
    hide ContextOk, SourceOk, PlanMade, T.RecordOk, Expected, Target, AllSeparate, WordOk;
    forall x: nat | x < |st.records| && st.records[x].detail.Classic? && st.records[x].address.Some?
      ensures st.records[x].address.value + st.records[x].width <= image.headerAddress || image.headerAddress + image.HeaderSize() <= st.records[x].address.value
    {
      var k := PlanWord(c, st, p, x);
      OneSeparate(c.images, st.records[x].address.value, st.records[x].width, j);
    }
    RangePreserved(c, st, p, image.headerAddress, image.HeaderSize());
  }

  lemma OneSeparate(images: seq<Image>, address: nat, width: nat, j: nat)
    requires AllSeparate(images, address, width) && j < |images|
    ensures Separate(images[j], address, width)
  {
  }

  /** The header of every image is inside the arena. */
  lemma HeaderInArena(c: Context, i: Inspection, env: F.Env, j: nat)
    requires ContextOk(c, i, env) && j < |c.images|
    ensures c.staging.minimum <= c.images[j].headerAddress
    ensures c.images[j].headerAddress - c.staging.minimum + c.images[j].HeaderSize() <= c.staging.arenaSize
  {
    hide *;
    ContextParts(c, i, env);
    ImageList(c, i, env);
    ArenaPlaceable(c, i, env);
    if j == 0 {
      CollectionHeaderInside(c.source, i, c.staging.minimum, c.staging.arenaSize);
    } else {
      MemberHeaderInside(c.source, i, j - 1, c.staging.minimum, c.staging.arenaSize);
    }
  }

  lemma CollectionHeaderInside(source: seq<byte>, i: Inspection, base: nat, arena: nat)
    requires Accepted(source, i) && Placeable(source, i.collection.segments, base, arena)
    ensures base <= i.collection.headerAddress && i.collection.headerAddress - base + i.collection.HeaderSize() <= arena
  {
    CollectionOk(source, i);
    hide Accepted, Placeable, SegmentOk, ImageOk;
    var k := HeaderMapped(source, i.collection);
    PlaceableAt(source, i.collection.segments, base, arena, k);
  }

  lemma MemberHeaderInside(source: seq<byte>, i: Inspection, m: nat, base: nat, arena: nat)
    requires Accepted(source, i) && m < |i.members| && Placeable(source, i.collection.segments, base, arena)
    ensures base <= i.members[m].headerAddress && i.members[m].headerAddress - base + i.members[m].HeaderSize() <= arena
  {
    MemberShown(source, i, m);
    hide Accepted, Placeable, SegmentOk, Shows, Inside;
    var outer := i.collection.segments;
    var k :| 0 <= k < |outer| && Shows(outer[k], Header(i.members[m]), i.members[m].headerAddress);
    PlaceableAt(source, outer, base, arena, k);
    ShownInside(source, outer[k], i.members[m], base, arena);
  }

  lemma ArenaPlaceable(c: Context, i: Inspection, env: F.Env)
    requires ContextOk(c, i, env)
    ensures Placeable(c.source, i.collection.segments, c.staging.minimum, c.staging.arenaSize)
  {
    hide *;
    ContextParts(c, i, env);
    DefaultLimits();
    PlanExact(c.source, i, 4096);
    AcceptedPlaceable(c.source, i, 4096);
  }

  lemma ShownInside(source: seq<byte>, s: Segment, m: Image, base: nat, arena: nat)
    requires SegmentOk(source, s) && Inside(s, base, base + arena) && m.commandBytes <= MAX_COMMAND_BYTES && Shows(s, Header(m), m.headerAddress)
    ensures base <= m.headerAddress && m.headerAddress - base + m.HeaderSize() <= arena
  {
  }

  lemma CollectionOk(source: seq<byte>, i: Inspection)
    requires Accepted(source, i)
    ensures ImageOk(source, i.collection)
  {
    hide ImageOk, MemberOk, EntryRuns;
  }

  lemma MemberShown(source: seq<byte>, i: Inspection, m: nat)
    requires Accepted(source, i) && m < |i.members|
    ensures i.members[m].commandBytes <= MAX_COMMAND_BYTES
    ensures exists k :: 0 <= k < |i.collection.segments| && Shows(i.collection.segments[k], Header(i.members[m]), i.members[m].headerAddress)
  {
    hide ImageOk, EntryRuns, MemberSegmentOk, Shows;
    assert MemberOk(i.collection.segments, i.members[m]);
  }

  lemma ImageList(c: Context, i: Inspection, env: F.Env)
    requires ContextOk(c, i, env)
    ensures c.images == [i.collection] + i.members
  {
    hide Accepted, FromInspection, T.EnvOk;
  }

  //////////////////////////////////////////////////////////////////////////////
  // How many bytes change
  //////////////////////////////////////////////////////////////////////////////

  lemma {:induction false} CountSplit(a: seq<byte>, b: seq<byte>, k: nat)
    requires |a| == |b| && k <= |a|
    ensures CountDiff(a, b) == CountDiff(a[..k], b[..k]) + CountDiff(a[k..], b[k..])
    decreases |a|
  {
    if k == |a| {
      assert a[..k] == a && b[..k] == b;
    } else {
      var n := |a| - 1;
      CountSplit(a[..n], b[..n], k);
      assert a[..n][..k] == a[..k] && b[..n][..k] == b[..k];
      assert a[..n][k..] == a[k..][..n - k] && b[..n][k..] == b[k..][..n - k];
    }
  }

  lemma {:induction false} CountSame(a: seq<byte>)
    ensures CountDiff(a, a) == 0
  {
    if a != [] {
      CountSame(a[..|a| - 1]);
    }
  }

  /** Differences in three parts: before, inside and after a range. */
  lemma CountParts(a: seq<byte>, b: seq<byte>, from: nat, to: nat)
    requires |a| == |b| && from <= to <= |a|
    ensures CountDiff(a, b) == CountDiff(a[..from], b[..from]) + CountDiff(a[from..to], b[from..to]) + CountDiff(a[to..], b[to..])
  {
    hide CountDiff;
    CountSplit(a, b, to);
    CountSplit(a[..to], b[..to], from);
    assert a[..to][..from] == a[..from] && b[..to][..from] == b[..from];
    assert a[..to][from..] == a[from..to] && b[..to][from..] == b[from..to];
  }

  lemma LastWord(expected: seq<byte>, words: seq<PatchWord>)
    requires words != [] && WordsOk(|expected|, words)
    ensures var (front, w) := (words[..|words| - 1], words[|words| - 1]);
            && WordsOk(|expected|, front) && Sized(front) && Sized(words) && w.End() <= |expected| && |w.after| == 8 && w.width <= 8
            && Target(expected, words)[..w.offset] == Target(expected, front)[..w.offset]
            && Target(expected, words)[w.offset..w.End()] == w.after[..w.width]
            && Target(expected, words)[w.End()..] == expected[w.End()..]
            && Target(expected, front)[w.offset..] == expected[w.offset..]
  {
    var n := |words| - 1;
    var front, w := words[..n], words[n];
    FrontOk(|expected|, words);
    WordsSized(|expected|, words);
    WordsSized(|expected|, front);
    WordWritten(expected, words, n);
    hide WordsOk, Sized, TargetAt;
    forall k: nat | k < n ensures words[k].End() <= w.offset {
      WordsFollow(|expected|, words, k, n);
    }
    TailKept(expected, words, w.End());
    TailKept(expected, front, w.offset);
    forall x: nat | x < w.offset ensures Target(expected, words)[x] == Target(expected, front)[x] {
      LastAside(expected, words, x);
    }
    assert Target(expected, words)[..w.offset] == Target(expected, front)[..w.offset];
  }

  lemma LastAside(expected: seq<byte>, words: seq<PatchWord>, x: nat)
    requires words != [] && Sized(words) && Sized(words[..|words| - 1]) && x < |expected| && x < words[|words| - 1].offset
    ensures TargetAt(expected, words, x) == TargetAt(expected, words[..|words| - 1], x)
  {
  }

  lemma FrontOk(arena: nat, words: seq<PatchWord>)
    requires words != [] && WordsOk(arena, words)
    ensures WordsOk(arena, words[..|words| - 1]) && WordFits(arena, words[|words| - 1])
  {
    hide WordFits;
  }

  /** The changed bytes a plan announces are exactly the bytes that differ between the two arenas. */
  lemma {:induction false} ChangedExact(expected: seq<byte>, words: seq<PatchWord>)
    requires WordsOk(|expected|, words)
    ensures Sized(words) && TotalsOf(expected, words).changed == CountDiff(expected, Target(expected, words))
  {
    WordsSized(|expected|, words);
    hide WordsOk, Sized, Target, CountDiff, TotalsOf;
    if words == [] {
      NothingPatched(expected);
      CountSame(expected);
    } else {
      var (front, w) := (words[..|words| - 1], words[|words| - 1]);
      var before, after := Target(expected, front), Target(expected, words);
      LastWord(expected, words);
      ChangedExact(expected, front);
      CountPatched(expected, before, after, w.offset, w.End());
      LastTotals(expected, words);
    }
  }

  lemma LastTotals(expected: seq<byte>, words: seq<PatchWord>)
    requires words != []
    ensures TotalsOf(expected, words).changed == TotalsOf(expected, words[..|words| - 1]).changed + Changes(expected, words[|words| - 1])
  {
    hide Changes;
  }

  /** Patching one more range adds the differences inside it. */
  lemma CountPatched(expected: seq<byte>, before: seq<byte>, after: seq<byte>, from: nat, to: nat)
    requires |expected| == |before| == |after| && from <= to <= |expected|
    requires after[..from] == before[..from] && after[to..] == expected[to..] && before[from..] == expected[from..]
    ensures CountDiff(expected, after) == CountDiff(expected, before) + CountDiff(expected[from..to], after[from..to])
  {
    hide CountDiff;
    CountParts(expected, before, from, to);
    CountParts(expected, after, from, to);
    assert before[from..to] == before[from..][..to - from] && before[to..] == before[from..][to - from..];
    assert expected[from..to] == expected[from..][..to - from] && expected[to..] == expected[from..][to - from..];
    CountSame(expected[from..to]);
    CountSame(expected[to..]);
  }

  lemma NothingPatched(expected: seq<byte>)
    ensures Target(expected, []) == expected && TotalsOf(expected, []).changed == 0
  {
  }

  //////////////////////////////////////////////////////////////////////////////
  // The whole rebase
  //////////////////////////////////////////////////////////////////////////////

  ghost predicate AllSlid(c: Context, records: seq<F.Record>, before: seq<byte>, after: seq<byte>) {
    forall a: nat :: a < |records| && records[a].detail.Classic? ==> Slid(c, records[a], before, after)
  }

  ghost predicate ChainsKept(c: Context, records: seq<F.Record>, before: seq<byte>, after: seq<byte>) {
    forall a: nat :: a < |records| && records[a].detail.Chain11? ==> ChainKept(c, records[a], before, after)
  }

  ghost predicate ChainKept(c: Context, r: F.Record, before: seq<byte>, after: seq<byte>) {
    r.address.Some? && r.width == 8 && Preserved(c, r.address.value, 8, before, after)
  }

  ghost predicate HeadersKept(c: Context, images: seq<Image>, before: seq<byte>, after: seq<byte>) {
    forall j :: 0 <= j < |images| ==> Preserved(c, images[j].headerAddress, images[j].HeaderSize(), before, after)
  }

  ghost predicate OnlyClassic(c: Context, records: seq<F.Record>, before: seq<byte>, after: seq<byte>) {
    |before| == |after| && forall x: nat :: x < |before| && after[x] != before[x] ==> InClassic(c, records, x)
  }

  /** What a rebased arena is, over the staged one. */
  ghost predicate Rebased(c: Context, records: seq<F.Record>, images: seq<Image>, before: seq<byte>, after: seq<byte>) {
    && |before| == |after| == c.staging.arenaSize
    && AllSlid(c, records, before, after) && ChainsKept(c, records, before, after)
    && HeadersKept(c, images, before, after) && OnlyClassic(c, records, before, after)
  }

  /** An arena offset under the write of some classic record. */
  ghost predicate InClassic(c: Context, records: seq<F.Record>, x: nat) {
    exists a: nat :: a < |records| && records[a].detail.Classic? && Covers(c, records[a], x)
  }

  predicate Covers(c: Context, r: F.Record, x: nat) {
    r.address.Some? && r.address.value <= c.staging.minimum + x < r.address.value + r.width
  }

  lemma ChangedInClassic(c: Context, st: F.State, p: RebasePlan, x: nat)
    requires SourceOk(c.source, c.staging.segments) && PlanMade(c, st, p) && Sized(p.words) && x < c.staging.arenaSize
    requires Target(Expected(c.source, c.staging), p.words)[x] != Expected(c.source, c.staging)[x]
    ensures InClassic(c, st.records, x)
  {
    hide SourceOk, PlanMade, Sized, TargetAt, ByteAt;
    PlanOrder(c, st, p);
    if forall k :: 0 <= k < |p.words| ==> !Writes(p.words[k], x) {
      Untouched(Expected(c.source, c.staging), p.words, x);
    } else {
      var k: nat :| k < |p.words| && Writes(p.words[k], x);
      var a := WordRecord(c, st, p, k);
      assert Covers(c, st.records[a], x);
    }
  }

  /**
   The rebase of an accepted collection: over the staged arena, every classic word is its old value
   plus the slide without wrap, every chain word and every header is untouched, nothing else changes,
   and the plan announces exactly how many bytes do.
   */
  lemma RebaseExact(source: seq<byte>, i: Inspection, slide: u32)
    requires Accepted(source, i) && PlanRebase(source, i, slide).Ok?
    ensures var p := PlanRebase(source, i, slide).value;
            && |Executables(i.members)| == 1 && F.Audit(source, DEFAULT_LIMITS, i).Ok? && SourceOk(source, p.staging.segments) && Sized(p.words)
            && WordsOk(|Expected(source, p.staging)|, p.words)
            && Rebased(ContextOf(source, i, slide, p.staging, Executables(i.members)[0]), F.Audit(source, DEFAULT_LIMITS, i).value.records,
                       [i.collection] + i.members, Expected(source, p.staging), Target(Expected(source, p.staging), p.words))
            && p.totals.changed == CountDiff(Expected(source, p.staging), Target(Expected(source, p.staging), p.words))
            && p.nonTarget + p.totals.written == p.staging.arenaSize
  {
    hide *;
    PlanRebaseExact(source, i, slide);
    var p, st := PlanRebase(source, i, slide).value, F.Audit(source, DEFAULT_LIMITS, i).value;
    PlanStaged(source, i, slide);
    ContextHolds(source, i, slide);
    DefaultLimits();
    T.AuditOnlyLimits(source, DEFAULT_LIMITS, i);
    var c, env := ContextOf(source, i, slide, p.staging, Executables(i.members)[0]), F.EnvOf(source, DEFAULT_LIMITS, i).value;
    ContextImages(source, i, slide, p.staging, Executables(i.members)[0]);
    T.CleanAudit(env, st);
    RebasedHolds(c, i, env, st, p);
    ImageList(c, i, env);
  }

  lemma PlanStaged(source: seq<byte>, i: Inspection, slide: u32)
    requires PlanRebase(source, i, slide).Ok?
    ensures FromInspection(source, i, 4096).Ok? && PlanRebase(source, i, slide).value.staging == FromInspection(source, i, 4096).value
  {
    hide FromInspection, Executables, F.Audit, CollectWords, Sort, WordsInOrder, ContextOf;
  }

  lemma RebasedHolds(c: Context, i: Inspection, env: F.Env, st: F.State, p: RebasePlan)
    requires ContextOk(c, i, env) && SourceOk(c.source, c.staging.segments) && PlanMade(c, st, p)
    requires T.RecordsOk(env, st.records)
    requires forall x: nat, y: nat :: x < |st.records| && y < |st.records| ==> !T.Colliding(st.records, x, y)
    requires forall x: nat :: x < |st.records| ==> T.RecordClean(st.records[x])
    ensures Sized(p.words) && WordsOk(|Expected(c.source, c.staging)|, p.words)
    ensures Rebased(c, st.records, c.images, Expected(c.source, c.staging), Target(Expected(c.source, c.staging), p.words))
    ensures p.totals.changed == CountDiff(Expected(c.source, c.staging), Target(Expected(c.source, c.staging), p.words))
    ensures p.nonTarget + p.totals.written == c.staging.arenaSize
  {
    hide *;
    PlanOrder(c, st, p);
    PlanTotals(c, st, p);
    var expected := Expected(c.source, c.staging);
    ChangedExact(expected, p.words);
    SlidAll(c, i, env, st, p);
    ChainsAll(c, i, env, st, p);
    HeadersAll(c, i, env, st, p);
    ClassicOnly(c, st, p);
    RebasedAssembled(c, st.records, c.images, expected, Target(expected, p.words));
  }

  lemma RebasedAssembled(c: Context, records: seq<F.Record>, images: seq<Image>, before: seq<byte>, after: seq<byte>)
    requires |before| == |after| == c.staging.arenaSize
    requires AllSlid(c, records, before, after) && ChainsKept(c, records, before, after)
    requires HeadersKept(c, images, before, after) && OnlyClassic(c, records, before, after)
    ensures Rebased(c, records, images, before, after)
  {
    hide AllSlid, ChainsKept, HeadersKept, OnlyClassic;
  }

  lemma SlidAll(c: Context, i: Inspection, env: F.Env, st: F.State, p: RebasePlan)
    requires ContextOk(c, i, env) && SourceOk(c.source, c.staging.segments) && PlanMade(c, st, p) && T.RecordsOk(env, st.records) && Sized(p.words)
    ensures AllSlid(c, st.records, Expected(c.source, c.staging), Target(Expected(c.source, c.staging), p.words))
  {
    hide ContextOk, SourceOk, PlanMade, Expected, Sized, Slid, T.RecordOk, Target;
    var expected := Expected(c.source, c.staging);
    forall a: nat | a < |st.records| && st.records[a].detail.Classic? ensures Slid(c, st.records[a], expected, Target(expected, p.words)) {
      ClassicSlid(c, i, env, st, p, a);
    }
  }

  lemma ChainsAll(c: Context, i: Inspection, env: F.Env, st: F.State, p: RebasePlan)
    requires ContextOk(c, i, env) && SourceOk(c.source, c.staging.segments) && PlanMade(c, st, p) && T.RecordsOk(env, st.records) && Sized(p.words)
    requires forall x: nat, y: nat :: x < |st.records| && y < |st.records| ==> !T.Colliding(st.records, x, y)
    requires forall x: nat :: x < |st.records| ==> T.RecordClean(st.records[x])
    ensures ChainsKept(c, st.records, Expected(c.source, c.staging), Target(Expected(c.source, c.staging), p.words))
  {
    hide ContextOk, SourceOk, PlanMade, Expected, Sized, Preserved, T.RecordsOk, T.RecordOk, Target, T.Colliding, T.RecordClean;
    var expected := Expected(c.source, c.staging);
    forall a: nat | a < |st.records| && st.records[a].detail.Chain11? ensures ChainKept(c, st.records[a], expected, Target(expected, p.words)) {
      ChainPreserved(c, i, env, st, p, a);
    }
  }

  lemma HeadersAll(c: Context, i: Inspection, env: F.Env, st: F.State, p: RebasePlan)
    requires ContextOk(c, i, env) && SourceOk(c.source, c.staging.segments) && PlanMade(c, st, p) && T.RecordsOk(env, st.records) && Sized(p.words)
    ensures HeadersKept(c, c.images, Expected(c.source, c.staging), Target(Expected(c.source, c.staging), p.words))
  {
    hide ContextOk, SourceOk, PlanMade, Expected, Sized, Preserved, T.RecordsOk, T.RecordOk, Target;
    var expected := Expected(c.source, c.staging);
    forall j: nat | j < |c.images| ensures Preserved(c, c.images[j].headerAddress, c.images[j].HeaderSize(), expected, Target(expected, p.words)) {
      HeaderPreserved(c, i, env, st, p, j);
    }
  }

  lemma ClassicOnly(c: Context, st: F.State, p: RebasePlan)
    requires SourceOk(c.source, c.staging.segments) && PlanMade(c, st, p) && Sized(p.words)
    ensures OnlyClassic(c, st.records, Expected(c.source, c.staging), Target(Expected(c.source, c.staging), p.words))
  {
    PlanOrder(c, st, p);
    hide SourceOk, PlanMade, Expected, Sized, InClassic, TargetAt;
    var expected := Expected(c.source, c.staging);
    forall x: nat | x < |expected| && Target(expected, p.words)[x] != expected[x] ensures InClassic(c, st.records, x) {
      ChangedInClassic(c, st, p, x);
    }
  }

  lemma PlanTotals(c: Context, st: F.State, p: RebasePlan)
    requires SourceOk(c.source, c.staging.segments) && PlanMade(c, st, p)
    ensures p.totals == TotalsOf(Expected(c.source, c.staging), p.words) && p.nonTarget + p.totals.written == c.staging.arenaSize
  {
    hide WordsOk, PatchesSome, Patched, TotalsOf, SourceOk;
  }

  //////////////////////////////////////////////////////////////////////////////
  // Verifying and applying
  //////////////////////////////////////////////////////////////////////////////

  /** Where the three cursors of the sweep stand: at an offset, before the next segment and before the next word. */
  ghost predicate Cursors(p: RebasePlan, cursor: nat, si: nat, wi: nat) {
    && cursor <= p.staging.arenaSize && si <= |p.staging.segments| && wi <= |p.words|
    && (forall k :: 0 <= k < si ==> p.staging.segments[k].End() <= cursor)
    && (forall k :: 0 <= k < wi ==> p.words[k].End() <= cursor)
    && (forall k :: wi <= k < |p.words| ==> cursor <= p.words[k].offset)
  }

  /** A stretch without words, in one hole or one part of one segment: its staged bytes. */
  function Stretch(source: seq<byte>, p: RebasePlan, si: nat, cursor: nat, end: nat): seq<byte>
    requires cursor <= end
  {
    if si < |p.staging.segments| && p.staging.segments[si].destination <= cursor && cursor < p.staging.segments[si].destination + p.staging.segments[si].fileSize &&
       p.staging.segments[si].fileOffset + (end - p.staging.segments[si].destination) <= |source|
      then source[p.staging.segments[si].fileOffset + (cursor - p.staging.segments[si].destination)..p.staging.segments[si].fileOffset + (end - p.staging.segments[si].destination)]
    else Zeros(end - cursor)
  }

  lemma StretchIs(source: seq<byte>, p: RebasePlan, si: nat, cursor: nat, end: nat)
    requires Laid(source, p.staging) && SourceOk(source, p.staging.segments) && cursor <= end <= p.staging.arenaSize
    requires si <= |p.staging.segments|
    requires forall k :: 0 <= k < si ==> p.staging.segments[k].End() <= cursor
    requires si < |p.staging.segments| ==>
               var s := p.staging.segments[si];
               cursor < s.End() &&
               end <= (if cursor < s.destination then s.destination else if cursor < s.destination + s.fileSize then s.destination + s.fileSize else s.End())
    ensures Expected(source, p.staging)[cursor..end] == Stretch(source, p, si, cursor, end)
  {
    hide ByteAt, Ordered;
    var segments := p.staging.segments;
    if si < |segments| {
      assert StagedOk(source, p.staging.arenaSize, segments[si]);
    }
    forall x: nat | cursor <= x < end ensures Expected(source, p.staging)[x] == Stretch(source, p, si, cursor, end)[x - cursor] {
      if si < |segments| && segments[si].destination <= x {
        OwnedByte(source, p.staging, si, x);
      } else {
        forall j: nat | j < |segments| ensures !InMemory(segments[j], x) {
          if j > si {
            LaidOrder(source, p.staging, si, j);
          }
        }
        UnownedByte(source, p.staging, x);
      }
    }
  }

  /** What a sound plan is: segments laid out, words in order over them. */
  ghost predicate Sound(source: seq<byte>, p: RebasePlan) {
    Laid(source, p.staging) && SourceOk(source, p.staging.segments) && WordsOk(p.staging.arenaSize, p.words) && Sized(p.words)
  }

  /** The next stretch ends before the next word and within one region. */
  lemma GapIs(source: seq<byte>, p: RebasePlan, si: nat, wi: nat, cursor: nat, end: nat)
    requires Sound(source, p) && Cursors(p, cursor, si, wi) && cursor <= end <= p.staging.arenaSize
    requires wi < |p.words| ==> end <= p.words[wi].offset
    ensures Target(Expected(source, p.staging), p.words)[cursor..end] == Expected(source, p.staging)[cursor..end]
  {
    hide Laid, SourceOk, TargetAt, ByteAt, Sized;
    forall k: nat | k < |p.words| ensures p.words[k].End() <= cursor || end <= p.words[k].offset {
      if k > wi {
        WordsFollow(p.staging.arenaSize, p.words, wi, k);
        WordWide(p.staging.arenaSize, p.words, wi);
      }
    }
    GapKept(Expected(source, p.staging), p.words, cursor, end);
  }

  lemma WordWide(arena: nat, words: seq<PatchWord>, k: nat)
    requires WordsOk(arena, words) && k < |words|
    ensures 0 < words[k].width && words[k].offset < words[k].End() <= arena && |words[k].after| == 8 && words[k].width <= 8
  {
    assert WordFits(arena, words[k]);
  }

  /** `verify`: one sweep over the arena with three cursors. It accepts exactly the rebased arena. */
  method VerifyRebased(source: seq<byte>, p: RebasePlan, bytes: seq<byte>) returns (r: Result<Totals, RebaseError>)
    requires Sound(source, p)
    ensures |bytes| != p.staging.arenaSize ==> r == Err(WrongSize)
    ensures |bytes| == p.staging.arenaSize ==> (r.Ok? <==> bytes == Target(Expected(source, p.staging), p.words))
    ensures r.Ok? ==> r.value == p.totals
    ensures r.Err? && |bytes| == p.staging.arenaSize ==> r.error == Mismatch
  {
    hide Laid, SourceOk, WordsOk, Expected, Target, Stretch, Cursors, Sized;
    if |bytes| != p.staging.arenaSize {
      return Err(WrongSize);
    }
    var segments := p.staging.segments;
    var cursor: nat, si: nat, wi: nat := 0, 0, 0;
    ghost var expected := Expected(source, p.staging);
    ghost var target := Target(expected, p.words);
    AtStart(p);
    ArenaLength(source, p);
    while cursor < |bytes|
      invariant Cursors(p, cursor, si, wi) && cursor <= |bytes| && si <= |segments| && wi <= |p.words|
      invariant bytes[..cursor] == target[..cursor]
    {
      if wi < |p.words| && p.words[wi].offset == cursor {
        var word := p.words[wi];
        WordWide(p.staging.arenaSize, p.words, wi);
        WordWritten(expected, p.words, wi);
        if bytes[cursor..cursor + word.width] != word.after[..word.width] {
          return Err(Mismatch);
        }
        A.JoinRegions(bytes, target, cursor, cursor + word.width);
        PastWord(p, cursor, si, wi);
        cursor := cursor + word.width;
        wi := wi + 1;
      } else {
        while si < |segments| && cursor >= segments[si].destination + segments[si].memorySize
          invariant Cursors(p, cursor, si, wi) && si <= |segments|
        {
          PastSegment(p, cursor, si, wi);
          si := si + 1;
        }
        var end := if wi < |p.words| then p.words[wi].offset else |bytes|;
        if si < |segments| {
          var s := segments[si];
          var region := if cursor < s.destination then s.destination
                        else if cursor < s.destination + s.fileSize then s.destination + s.fileSize
                        else s.destination + s.memorySize;
          if region < end {
            end := region;
          }
        }
        EndAhead(p, cursor, si, wi, end);
        StretchHere(source, p, si, wi, cursor, end);
        if bytes[cursor..end] != Stretch(source, p, si, cursor, end) {
          return Err(Mismatch);
        }
        A.JoinRegions(bytes, target, cursor, end);
        PastStretch(p, cursor, si, wi, end);
        cursor := end;
      }
    }
    assert bytes[..cursor] == bytes && target[..cursor] == target;
    AllWordsPassed(p, cursor, si, wi);
    return Ok(p.totals);
  }

  lemma AtStart(p: RebasePlan)
    ensures Cursors(p, 0, 0, 0)
  {
  }

  lemma ArenaLength(source: seq<byte>, p: RebasePlan)
    requires SourceOk(source, p.staging.segments) && Sized(p.words)
    ensures |Expected(source, p.staging)| == p.staging.arenaSize == |Target(Expected(source, p.staging), p.words)|
  {
  }

  lemma PastWord(p: RebasePlan, cursor: nat, si: nat, wi: nat)
    requires WordsOk(p.staging.arenaSize, p.words) && Cursors(p, cursor, si, wi) && wi < |p.words| && p.words[wi].offset == cursor
    ensures Cursors(p, p.words[wi].End(), si, wi + 1)
  {
    WordWide(p.staging.arenaSize, p.words, wi);
    hide WordsOk;
    forall k: nat | wi < k < |p.words| ensures p.words[wi].End() <= p.words[k].offset {
      WordsFollow(p.staging.arenaSize, p.words, wi, k);
    }
  }

  lemma PastSegment(p: RebasePlan, cursor: nat, si: nat, wi: nat)
    requires Cursors(p, cursor, si, wi) && si < |p.staging.segments| && cursor >= p.staging.segments[si].End()
    ensures Cursors(p, cursor, si + 1, wi)
  {
  }

  /** The guard against an empty stretch never fires. */
  lemma EndAhead(p: RebasePlan, cursor: nat, si: nat, wi: nat, end: nat)
    requires Cursors(p, cursor, si, wi) && cursor < p.staging.arenaSize && !(wi < |p.words| && p.words[wi].offset == cursor)
    requires si < |p.staging.segments| ==> cursor < p.staging.segments[si].End()
    requires var next := if wi < |p.words| then p.words[wi].offset else p.staging.arenaSize;
             end == next ||
             (si < |p.staging.segments| && var s := p.staging.segments[si];
              end == (if cursor < s.destination then s.destination else if cursor < s.destination + s.fileSize then s.destination + s.fileSize else s.End()))
    ensures cursor < end
  {
  }

  lemma StretchHere(source: seq<byte>, p: RebasePlan, si: nat, wi: nat, cursor: nat, end: nat)
    requires Sound(source, p) && Cursors(p, cursor, si, wi) && cursor <= end && si <= |p.staging.segments|
    requires end <= (if wi < |p.words| then p.words[wi].offset else p.staging.arenaSize)
    requires si < |p.staging.segments| ==>
               var s := p.staging.segments[si];
               cursor < s.End() &&
               end <= (if cursor < s.destination then s.destination else if cursor < s.destination + s.fileSize then s.destination + s.fileSize else s.End())
    ensures end <= p.staging.arenaSize
    ensures Target(Expected(source, p.staging), p.words)[cursor..end] == Stretch(source, p, si, cursor, end)
  {
    if wi < |p.words| {
      WordWide(p.staging.arenaSize, p.words, wi);
    }
    hide Sound, Stretch, Target, Expected, TargetAt;
    SoundParts(source, p);
    StretchIs(source, p, si, cursor, end);
    GapIs(source, p, si, wi, cursor, end);
  }

  lemma SoundParts(source: seq<byte>, p: RebasePlan)
    requires Sound(source, p)
    ensures Laid(source, p.staging) && SourceOk(source, p.staging.segments) && WordsOk(p.staging.arenaSize, p.words) && Sized(p.words)
  {
  }

  lemma PastStretch(p: RebasePlan, cursor: nat, si: nat, wi: nat, end: nat)
    requires Cursors(p, cursor, si, wi) && cursor <= end <= p.staging.arenaSize && (wi < |p.words| ==> end <= p.words[wi].offset)
    requires WordsOk(p.staging.arenaSize, p.words)
    ensures Cursors(p, end, si, wi)
  {
    hide WordsOk;
    forall k: nat | wi < k < |p.words| ensures end <= p.words[k].offset {
      WordsFollow(p.staging.arenaSize, p.words, wi, k);
      WordWide(p.staging.arenaSize, p.words, wi);
    }
  }

  /** At the end of the arena every word has been passed, so the final count always agrees. */
  lemma AllWordsPassed(p: RebasePlan, cursor: nat, si: nat, wi: nat)
    requires WordsOk(p.staging.arenaSize, p.words) && Cursors(p, cursor, si, wi) && cursor == p.staging.arenaSize
    ensures wi == |p.words|
  {
    if wi < |p.words| {
      WordWide(p.staging.arenaSize, p.words, wi);
    }
  }

  /** `apply`: stages the arena, writes every word over it and verifies the result. */
  method Apply(source: seq<byte>, p: RebasePlan, arena: array<byte>) returns (r: Result<Totals, RebaseError>)
    requires S.PlanOk(source, p.staging) && Sound(source, p) && p.staging.arenaSize < U64_LIMIT
    modifies arena
    ensures arena.Length != p.staging.arenaSize ==> r == Err(StagingFailed(DestinationSize)) && arena[..] == old(arena[..])
    ensures arena.Length == p.staging.arenaSize ==> r == Ok(p.totals) && arena[..] == Target(Expected(source, p.staging), p.words)
  {
    hide Laid, SourceOk, WordsOk, Expected, S.PlanOk, A.Counts, Sized;
    var staged := StageInto(source, p.staging, arena);
    if staged.Err? {
      return Err(StagingFailed(staged.error));
    }
    ghost var expected := Expected(source, p.staging);
    ArenaLength(source, p);
    NothingPatched(expected);
    var k: nat := 0;
    SizedPrefix(p.words, 0);
    assert p.words[..0] == [];
    while k < |p.words|
      invariant k <= |p.words|
      invariant Sized(p.words[..k]) && arena[..] == Target(expected, p.words[..k])
    {
      var w := p.words[k];
      WordWide(p.staging.arenaSize, p.words, k);
      SizedPrefix(p.words, k + 1);
      PutWord(w, arena);
      PatchStep(expected, p.words, k, arena[..]);
      k := k + 1;
    }
    assert p.words[..k] == p.words;
    r := VerifyRebased(source, p, arena[..]);
  }

  lemma SizedPrefix(words: seq<PatchWord>, k: nat)
    requires Sized(words) && k <= |words|
    ensures Sized(words[..k])
  {
  }

  lemma PatchStep(expected: seq<byte>, words: seq<PatchWord>, k: nat, after: seq<byte>)
    requires Sized(words) && k < |words| && Sized(words[..k]) && Sized(words[..k + 1]) && |after| == |expected|
    requires forall x: nat :: x < |after| ==> after[x] == if Writes(words[k], x) then words[k].after[x - words[k].offset] else Target(expected, words[..k])[x]
    ensures after == Target(expected, words[..k + 1])
  {
    assert words[..k + 1][..k] == words[..k];
  }

  method PutWord(w: PatchWord, arena: array<byte>)
    requires w.End() <= arena.Length && |w.after| == 8 && w.width <= 8
    modifies arena
    ensures forall x: nat :: x < arena.Length ==> arena[x] == if Writes(w, x) then w.after[x - w.offset] else old(arena[..])[x]
  {
    var d: nat := 0;
    while d < w.width
      invariant d <= w.width
      invariant forall x: nat :: x < arena.Length ==> arena[x] == if w.offset <= x < w.offset + d then w.after[x - w.offset] else old(arena[..])[x]
    {
      arena[w.offset + d] := w.after[d];
      d := d + 1;
    }
  }

  /** The record loop of `new`: counters and the word list move together. */
  method Collect(c: Context, records: seq<F.Record>) returns (r: Result<Collected, RebaseError>)
    ensures r == CollectWords(c, records, 0, NO_WORDS)
  {
    hide RecordStep;
    var done := NO_WORDS;
    var k: nat := 0;
    while k < |records|
      invariant k <= |records|
      invariant CollectWords(c, records, 0, NO_WORDS) == CollectWords(c, records, k, done)
    {
      if records[k].detail.Classic? {
        var next := RecordStep(c, records[k], done);
        if next.Err? {
          return Err(next.error);
        }
        done := next.value;
      }
      k := k + 1;
    }
    return Ok(done);
  }

  /** The plan of an accepted collection can be applied. */
  lemma PlanApplies(source: seq<byte>, i: Inspection, slide: u32)
    requires Accepted(source, i) && PlanRebase(source, i, slide).Ok?
    ensures S.PlanOk(source, PlanRebase(source, i, slide).value.staging) && Sound(source, PlanRebase(source, i, slide).value)
    ensures PlanRebase(source, i, slide).value.staging.arenaSize <= MAX_STAGING_SIZE
  {
    hide *;
    DefaultLimits();
    PlanStaged(source, i, slide);
    PlanReadable(source, i, 4096);
    RebaseExact(source, i, slide);
    var p := PlanRebase(source, i, slide).value;
    PlanCoherent(source, p.staging);
    ArenaLength(source, p);
    SoundHolds(source, p);
  }

  lemma SoundHolds(source: seq<byte>, p: RebasePlan)
    requires Laid(source, p.staging) && SourceOk(source, p.staging.segments) && WordsOk(p.staging.arenaSize, p.words) && Sized(p.words)
    ensures Sound(source, p)
  {
  }
}
