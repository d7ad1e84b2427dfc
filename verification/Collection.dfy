/**
 The metadata of a kernel collection and the inspector that accepts it. Load commands arrive decoded;
 every check the inspector makes on the decoded values, and the table of chained fixups, is here.
 */
module Collection {
  import opened Wrappers
  import opened Words
  import opened Sorting
  import opened Spans

  const MAX_INPUT_SIZE: nat := 0x800_0000
  const MAX_COMMANDS: nat := 16384
  const MAX_COMMAND_BYTES: nat := 0x10_0000
  const MAX_SEGMENTS: nat := 4096
  const MAX_SECTIONS: nat := 32768
  const MAX_MEMBERS: nat := 512
  const MAX_IDENTIFIER: nat := 1024
  const MAX_FIXUP_BYTES: nat := 0x100_0000
  const MAX_PAGE_START_VISITS: nat := 1000000

  datatype Error =
    | InputTooLarge
    | Truncated
    | Overflow
    | LimitExceeded
    | UnsupportedCpu
    | UnsupportedFileType
    | UnsupportedSegmentFlags
    | UnsupportedCollectionEntry
    | UnsupportedFixupVersion
    | InvalidHeader
    | InvalidIdentifier
    | DuplicateMember
    | InvalidSegment
    | InvalidSection
    | OverlappingRange
    | InvalidMemberMapping
    | InvalidLinkedit
    | InvalidFixups
    | MissingEntry
    | InvalidEntry

  datatype FileRange = FileRange(offset: u64, size: u64) {
    function End(): nat {
      offset + size
    }
  }

  /** A table of relocation records: a file offset and a count of eight-byte records. */
  datatype Records = Records(offset: u32, count: u32) {
    function Range(): FileRange {
      FileRange(offset, count * 8)
    }
  }

  datatype Section = Section(
    segmentName: seq<byte>,
    address: u64,
    size: u64,
    fileOffset: u32,
    alignment: u32,
    flags: u32,
    relocations: Records)

  datatype Segment = Segment(
    name: seq<byte>,
    address: u64,
    memorySize: u64,
    file: FileRange,
    maximumProtection: u32,
    initialProtection: u32,
    flags: u32,
    sections: seq<Section>) {
    function End(): nat {
      address + memorySize
    }
  }

  datatype Entry =
    | UnixThread64(instructionPointer: u64)
    | ArmThread64(instructionPointer: u64, stackPointer: u64, cpsr: u32, flags: u32)
    | Main(textOffset: u64, stackSize: u64)

  datatype Relocations = Relocations(local: Records, external: Records)

  datatype FixupSegment = FixupSegment(
    segmentIndex: nat,
    pointerFormat: u16,
    pageSize: u16,
    pageCount: u16,
    pagesWithFixups: nat,
    multipleStartPages: nat,
    segmentOffset: u64)

  datatype Fixups = Fixups(file: FileRange, importsCount: u32, importsFormat: u32, symbolsFormat: u32, segments: seq<FixupSegment>)

  datatype Image = Image(
    cpuSubtype: u32,
    headerFileOffset: u64,
    headerAddress: u64,
    fileType: u32,
    commandBytes: u32,
    segments: seq<Segment>,
    entry: Option<Entry>,
    relocations: Option<Relocations>,
    fixups: Option<Fixups>) {
    function HeaderSize(): nat {
      32 + commandBytes
    }
  }

  datatype Inspection = Inspection(collection: Image, members: seq<Image>)

  /** The load commands of one header, decoded. */
  datatype Decoded = Decoded(
    cpuSubtype: u32,
    fileType: u32,
    commandCount: u32,
    commandBytes: u32,
    segments: seq<Segment>,
    entry: Option<Entry>,
    linkedit: seq<FileRange>,
    symbolCount: Option<u32>,
    symbolGroups: seq<SymbolGroup>,
    relocations: Option<Relocations>,
    fixups: Option<FileRange>)

  /** A run of symbol indices of the dynamic symbol table. */
  datatype SymbolGroup = SymbolGroup(first: u32, count: u32)

  /** One entry of the member table, and the load commands found at its offset. */
  datatype Reference = Reference(identifier: seq<byte>, offset: u64, address: u64, header: Decoded)

  datatype Budget = Budget(commands: nat, segments: nat, sections: nat)

  //////////////////////////////////////////////////////////////////////////////
  // Ranges and words
  //////////////////////////////////////////////////////////////////////////////

  predicate Contains(outer: FileRange, inner: FileRange) {
    inner.offset >= outer.offset && Fits64(inner.End()) && Fits64(outer.End()) && inner.End() <= outer.End()
  }

  predicate Overlaps(a: FileRange, b: FileRange) {
    a.size != 0 && b.size != 0 && a.offset < b.End() && b.offset < a.End()
  }

  function RangeError(bytes: seq<byte>, r: FileRange): Option<Error> {
    if !Fits64(r.End()) then Some(Overflow) else if r.End() > |bytes| then Some(Truncated) else None
  }

  predicate Readable(bytes: seq<byte>, at: nat, width: nat) {
    at + width <= |bytes|
  }

  /** The little-endian word of `width` bytes at an offset. */
  function Word(bytes: seq<byte>, at: nat, width: nat): nat
    requires Readable(bytes, at, width)
  {
    Le(bytes[at..at + width])
  }

  function U16(bytes: seq<byte>, at: nat): (r: u16)
    requires Readable(bytes, at, 2)
  {
    WordBound(bytes, at, 2);
    Pow2Word();
    Word(bytes, at, 2)
  }

  function U32(bytes: seq<byte>, at: nat): (r: u32)
    requires Readable(bytes, at, 4)
  {
    WordBound(bytes, at, 4);
    Pow2Word();
    Word(bytes, at, 4)
  }

  function U64(bytes: seq<byte>, at: nat): (r: u64)
    requires Readable(bytes, at, 8)
  {
    WordBound(bytes, at, 8);
    Pow2Word();
    Word(bytes, at, 8)
  }

  lemma WordBound(bytes: seq<byte>, at: nat, width: nat)
    requires Readable(bytes, at, width)
    ensures Word(bytes, at, width) < Pow2(8 * width)
  {
    LeBound(bytes[at..at + width]);
  }

  /** A word read inside a slice is the word of the whole. */
  lemma WordInSlice(bytes: seq<byte>, from: nat, size: nat, at: nat, width: nat)
    requires from + size <= |bytes| && at + width <= size
    ensures Word(bytes[from..from + size], at, width) == Word(bytes, from + at, width)
  {
    var a, b := bytes[from..from + size][at..at + width], bytes[from + at..from + at + width];
    assert forall k :: 0 <= k < width ==> a[k] == b[k];
    assert a == b;
  }

  //////////////////////////////////////////////////////////////////////////////
  // Segments
  //////////////////////////////////////////////////////////////////////////////

  function SectionSpans(sections: seq<Section>): seq<Span> {
    if sections == [] then []
    else if sections[0].size == 0 then SectionSpans(sections[1..])
    else [Span(sections[0].address, sections[0].address + sections[0].size)] + SectionSpans(sections[1..])
  }

  predicate ZeroFill(sectionFlags: u32) {
    sectionFlags % 256 == 1 || sectionFlags % 256 == 0xc || sectionFlags % 256 == 0x12
  }

  function SectionError(bytes: seq<byte>, s: Segment, c: Section): Option<Error> {
    if c.segmentName != s.name || c.address < s.address then Some(InvalidSection)
    else if !Fits64(c.address + c.size) then Some(Overflow)
    else if c.address + c.size > s.End() || c.alignment >= 64 || BitAnd(c.address, Pow2(c.alignment) - 1) != 0 then Some(InvalidSection)
    else if !ZeroFill(c.flags) && c.size != 0 &&
            !(Contains(s.file, FileRange(c.fileOffset, c.size)) && c.fileOffset - s.file.offset == c.address - s.address)
      then Some(InvalidSection)
    else RangeError(bytes, c.relocations.Range())
  }

  function SectionsError(bytes: seq<byte>, s: Segment, k: nat): Option<Error>
    requires k <= |s.sections|
    decreases |s.sections| - k
  {
    if k == |s.sections| then None
    else if SectionError(bytes, s, s.sections[k]).Some? then SectionError(bytes, s, s.sections[k])
    else SectionsError(bytes, s, k + 1)
  }

  /** The checks of `parse_segment` on the decoded fields. */
  function SegmentError(bytes: seq<byte>, s: Segment): Option<Error> {
    if RangeError(bytes, s.file).Some? then RangeError(bytes, s.file)
    else if !Fits64(s.End()) then Some(Overflow)
    else if s.file.size > s.memorySize || s.maximumProtection >= 8 || BitAnd(s.initialProtection, U32_LIMIT - 1 - s.maximumProtection) != 0
      then Some(InvalidSegment)
    else if BitAnd(s.flags, U32_LIMIT - 1 - 4) != 0 then Some(UnsupportedSegmentFlags)
    else if SectionsError(bytes, s, 0).Some? then SectionsError(bytes, s, 0)
    else if !Chained(Sort(SectionSpans(s.sections), Start)) then Some(OverlappingRange)
    else None
  }

  /** What the inspector has established of a segment. */
  ghost predicate SegmentOk(bytes: seq<byte>, s: Segment) {
    && s.file.End() <= |bytes| && Fits64(s.file.End()) && Fits64(s.End()) && s.file.size <= s.memorySize
    && forall i :: 0 <= i < |s.sections| ==> Fits64(s.sections[i].relocations.Range().End()) && s.sections[i].relocations.Range().End() <= |bytes|
  }

  lemma {:induction false} SectionsChecked(bytes: seq<byte>, s: Segment, k: nat)
    requires k <= |s.sections| && SectionsError(bytes, s, k).None?
    ensures forall i :: k <= i < |s.sections| ==> Fits64(s.sections[i].relocations.Range().End()) && s.sections[i].relocations.Range().End() <= |bytes|
    decreases |s.sections| - k
  {
    if k < |s.sections| {
      SectionsChecked(bytes, s, k + 1);
    }
  }

  lemma SegmentChecked(bytes: seq<byte>, s: Segment)
    requires SegmentError(bytes, s).None?
    ensures SegmentOk(bytes, s)
  {
    hide BitAnd, SectionsError, SectionError;
    SectionsChecked(bytes, s, 0);
  }

  function SegmentsError(bytes: seq<byte>, segments: seq<Segment>, budget: Budget): Result<Budget, Error>
    decreases |segments|
  {
    if segments == [] then Ok(budget)
    else if budget.segments + 1 > MAX_SEGMENTS then Err(LimitExceeded)
    else if budget.sections + |segments[0].sections| > MAX_SECTIONS then Err(LimitExceeded)
    else if SegmentError(bytes, segments[0]).Some? then Err(SegmentError(bytes, segments[0]).value)
    else SegmentsError(bytes, segments[1..], budget.(segments := budget.segments + 1, sections := budget.sections + |segments[0].sections|))
  }

  lemma {:induction false} SegmentsChecked(bytes: seq<byte>, segments: seq<Segment>, budget: Budget)
    requires SegmentsError(bytes, segments, budget).Ok?
    ensures forall i :: 0 <= i < |segments| ==> SegmentOk(bytes, segments[i])
    ensures SegmentsError(bytes, segments, budget).value.segments == budget.segments + |segments|
    ensures |segments| > 0 ==> budget.segments + |segments| <= MAX_SEGMENTS
    decreases |segments|
  {
    hide SegmentError, SegmentOk;
    if segments != [] {
      SegmentChecked(bytes, segments[0]);
      SegmentsChecked(bytes, segments[1..], budget.(segments := budget.segments + 1, sections := budget.sections + |segments[0].sections|));
    }
  }

  //////////////////////////////////////////////////////////////////////////////
  // Non-overlap
  //////////////////////////////////////////////////////////////////////////////

  function AddressSpan(s: Segment): Span {
    Span(s.address, s.End())
  }

  function FileSpan(s: Segment): Span {
    Span(s.file.offset, s.file.End())
  }

  function AddressSpans(segments: seq<Segment>): seq<Span> {
    if segments == [] then []
    else if segments[0].memorySize == 0 then AddressSpans(segments[1..])
    else [AddressSpan(segments[0])] + AddressSpans(segments[1..])
  }

  function FileSpans(segments: seq<Segment>): seq<Span> {
    if segments == [] then []
    else if segments[0].file.size == 0 then FileSpans(segments[1..])
    else [FileSpan(segments[0])] + FileSpans(segments[1..])
  }

  /** `validate_nonoverlap`: neighbours after sorting by address, then by file offset. */
  predicate NonOverlap(segments: seq<Segment>) {
    Chained(Sort(AddressSpans(segments), Start)) && Chained(Sort(FileSpans(segments), Start))
  }

  predicate ApartInMemory(a: Segment, b: Segment) {
    a.memorySize == 0 || b.memorySize == 0 || Apart(AddressSpan(a), AddressSpan(b))
  }

  predicate ApartInFile(a: Segment, b: Segment) {
    a.file.size == 0 || b.file.size == 0 || Apart(FileSpan(a), FileSpan(b))
  }

  lemma {:induction false} AddressSpansPairs(segments: seq<Segment>)
    ensures AllNonempty(AddressSpans(segments))
    ensures Pairwise(AddressSpans(segments), Apart) <==> Pairwise(segments, ApartInMemory)
  {
    if segments != [] {
      var s, rest := segments[0], segments[1..];
      AddressSpansPairs(rest);
      PairwiseCons(s, rest, ApartInMemory);
      AddressSpansAll(rest, s);
      if s.memorySize != 0 {
        PairwiseCons(AddressSpan(s), AddressSpans(rest), Apart);
      }
      assert segments == [s] + rest;
    }
  }

  lemma {:induction false} AddressSpansAll(segments: seq<Segment>, s: Segment)
    ensures s.memorySize != 0 ==> (All(AddressSpans(segments), AddressSpan(s), Apart) <==> All(segments, s, ApartInMemory))
    ensures s.memorySize == 0 ==> All(segments, s, ApartInMemory)
  {
    if segments != [] && s.memorySize != 0 {
      var t, rest := segments[0], segments[1..];
      AddressSpansAll(rest, s);
      AllCons(t, rest, s, ApartInMemory);
      AllCons(AddressSpan(t), AddressSpans(rest), AddressSpan(s), Apart);
      assert segments == [t] + rest;
    }
  }

  lemma {:induction false} FileSpansPairs(segments: seq<Segment>)
    ensures AllNonempty(FileSpans(segments))
    ensures Pairwise(FileSpans(segments), Apart) <==> Pairwise(segments, ApartInFile)
  {
    if segments != [] {
      var s, rest := segments[0], segments[1..];
      FileSpansPairs(rest);
      PairwiseCons(s, rest, ApartInFile);
      FileSpansAll(rest, s);
      if s.file.size != 0 {
        PairwiseCons(FileSpan(s), FileSpans(rest), Apart);
      }
      assert segments == [s] + rest;
    }
  }

  lemma {:induction false} FileSpansAll(segments: seq<Segment>, s: Segment)
    ensures s.file.size != 0 ==> (All(FileSpans(segments), FileSpan(s), Apart) <==> All(segments, s, ApartInFile))
    ensures s.file.size == 0 ==> All(segments, s, ApartInFile)
  {
    if segments != [] && s.file.size != 0 {
      var t, rest := segments[0], segments[1..];
      FileSpansAll(rest, s);
      AllCons(t, rest, s, ApartInFile);
      AllCons(FileSpan(t), FileSpans(rest), FileSpan(s), Apart);
      assert segments == [t] + rest;
    }
  }

  /** Sorting and comparing neighbours accepts exactly the segments that are apart in memory and in the file. */
  lemma NonOverlapExact(segments: seq<Segment>)
    ensures NonOverlap(segments) <==> Pairwise(segments, ApartInMemory) && Pairwise(segments, ApartInFile)
  {
    hide Chained, Pairwise;
    AddressSpansPairs(segments);
    FileSpansPairs(segments);
    NeighboursDecide(AddressSpans(segments));
    NeighboursDecide(FileSpans(segments));
  }

  //////////////////////////////////////////////////////////////////////////////
  // Chained fixups
  //////////////////////////////////////////////////////////////////////////////

  predicate PageStartOk(start: nat, pageSize: nat, backed: nat, format: u16) {
    start < pageSize && start + (if format == 8 || format == 11 then 8 else 1) <= backed
  }

  function Less(a: nat, b: nat): nat {
    if a >= b then a - b else 0
  }

  /** How many bytes from an offset of a segment on are both in the file and in memory. */
  function Backed(s: Segment, offset: nat): nat {
    if Less(s.file.size, offset) <= Less(s.memorySize, offset) then Less(s.file.size, offset) else Less(s.memorySize, offset)
  }

  function WrapSub(a: u64, b: u64): u64 {
    if a >= b then a - b else a + U64_LIMIT - b
  }

  function CeilDiv(a: nat, b: nat): nat
    requires b > 0
  {
    (a + b - 1) / b
  }

  /** The page-start slots after the 22 fixed bytes of a segment's fixup record. */
  function Slots(info: seq<byte>): nat {
    if |info| < 22 then 0 else (|info| - 22) / 2
  }

  function Slot(info: seq<byte>, k: nat): u16
    requires k < Slots(info)
  {
    U16(info, 22 + k * 2)
  }

  /** The list of starts of one page: from a cursor to the slot with the high bit. Returns the visits made. */
  function MultiStarts(info: seq<byte>, cursor: nat, pageSize: nat, backed: nat, format: u16, visits: nat): Result<nat, Error>
    decreases if cursor < Slots(info) then Slots(info) - cursor else 0
  {
    if visits + 1 > MAX_PAGE_START_VISITS then Err(LimitExceeded)
    else if cursor >= Slots(info) then Err(InvalidFixups)
    else if !PageStartOk(Slot(info, cursor) % 0x8000, pageSize, backed, format) then Err(InvalidFixups)
    else if Slot(info, cursor) >= 0x8000 then Ok(visits + 1)
    else MultiStarts(info, cursor + 1, pageSize, backed, format, visits + 1)
  }

  datatype PageTotals = PageTotals(visits: nat, withFixups: nat, multiple: nat)

  function PageStep(info: seq<byte>, s: Segment, pageSize: nat, pageCount: nat, format: u16, page: nat, t: PageTotals): Result<PageTotals, Error>
    requires page < pageCount <= Slots(info)
  {
    if t.visits + 1 > MAX_PAGE_START_VISITS then Err(LimitExceeded)
    else
      var first := Slot(info, page);
      if first == 0xffff then Ok(t.(visits := t.visits + 1))
      else if first < 0x8000 then
        if PageStartOk(first, pageSize, Backed(s, page * pageSize), format) then Ok(t.(visits := t.visits + 1, withFixups := t.withFixups + 1))
        else Err(InvalidFixups)
      else if first - 0x8000 < pageCount then Err(InvalidFixups)
      else
        var visits :- MultiStarts(info, first - 0x8000, pageSize, Backed(s, page * pageSize), format, t.visits + 1);
        Ok(PageTotals(visits, t.withFixups + 1, t.multiple + 1))
  }

  function Pages(info: seq<byte>, s: Segment, pageSize: nat, pageCount: nat, format: u16, page: nat, t: PageTotals): Result<PageTotals, Error>
    requires page <= pageCount <= Slots(info)
    decreases pageCount - page
  {
    if page == pageCount then Ok(t)
    else
      var next :- PageStep(info, s, pageSize, pageCount, format, page, t);
      Pages(info, s, pageSize, pageCount, format, page + 1, next)
  }

  /** The head of the fixup data: where the starts table, the imports and the symbols are. */
  datatype Head = Head(starts: nat, tableSize: nat, imports: FileRange, symbols: FileRange)

  datatype Seen = Seen(ranges: seq<FileRange>, visits: nat, found: seq<FixupSegment>)

  predicate AnyOverlaps(ranges: seq<FileRange>, r: FileRange) {
    exists i :: 0 <= i < |ranges| && Overlaps(ranges[i], r)
  }

  function FixupRecord(info: seq<byte>, s: Segment, index: nat, headerAddress: u64, range: FileRange, seen: Seen): Result<Seen, Error>
    requires |info| >= 22
  {
    var pageSize, format, offset, pageCount := U16(info, 4), U16(info, 6), U64(info, 8), U16(info, 20);
    if offset != WrapSub(s.address, headerAddress) || !(pageSize == 4096 || pageSize == 16384) || U32(info, 16) != 0 ||
       pageCount > CeilDiv(s.memorySize, pageSize)
      then Err(InvalidFixups)
    else if pageCount > Slots(info) then Err(InvalidFixups)
    else
      var t :- Pages(info, s, pageSize, pageCount, format, 0, PageTotals(seen.visits, 0, 0));
      Ok(Seen(seen.ranges + [range], t.visits,
              seen.found + [FixupSegment(index, format, pageSize, pageCount, t.withFixups, t.multiple, offset)]))
  }

  function FixupStep(data: seq<byte>, h: Head, s: Segment, index: nat, headerAddress: u64, seen: Seen): Result<Seen, Error>
    requires h.starts + 4 + index * 4 + 4 <= |data| <= MAX_FIXUP_BYTES
  {
    var relative := U32(data, h.starts + 4 + index * 4);
    var at := h.starts + relative;
    if relative == 0 then Ok(seen)
    else if relative < h.tableSize then Err(InvalidFixups)
    else if at + 4 > |data| then Err(Truncated)
    else
      var size := U32(data, at);
      if size < 22 || (size - 22) % 2 != 0 then Err(InvalidFixups)
      else if at + size > |data| then Err(Truncated)
      else
        var range := FileRange(at, size);
        if AnyOverlaps(seen.ranges, range) || Overlaps(range, h.imports) || Overlaps(range, h.symbols) then Err(InvalidFixups)
        else FixupRecord(data[at..at + size], s, index, headerAddress, range, seen)
  }

  function FixupSegments(data: seq<byte>, h: Head, segments: seq<Segment>, headerAddress: u64, index: nat, seen: Seen): Result<Seen, Error>
    requires index <= |segments| && h.starts + 4 + |segments| * 4 <= |data| <= MAX_FIXUP_BYTES
    decreases |segments| - index
  {
    if index == |segments| then Ok(seen)
    else
      var next :- FixupStep(data, h, segments[index], index, headerAddress, seen);
      FixupSegments(data, h, segments, headerAddress, index + 1, next)
  }

  function ParseHead(data: seq<byte>, segmentCount: nat): Result<Head, Error>
    requires |data| <= MAX_FIXUP_BYTES
  {
    if |data| < 28 then Err(Truncated)
    else if U32(data, 0) != 0 then Err(UnsupportedFixupVersion)
    else
      var starts, imports, symbols, importsCount, format := U32(data, 4), U32(data, 8), U32(data, 12), U32(data, 16), U32(data, 20);
      if starts < 28 || imports < 28 || symbols < 28 || symbols > |data| || U32(data, 24) > 1 then Err(InvalidFixups)
      else if !(1 <= format <= 3) then Err(InvalidFixups)
      else
        var importSize := importsCount * (if format == 1 then 4 else if format == 2 then 8 else 16);
        var importRange, symbolRange := FileRange(imports, importSize), FileRange(symbols, |data| - symbols);
        if importRange.End() > |data| then Err(Truncated)
        else if Overlaps(importRange, symbolRange) then Err(InvalidFixups)
        else if starts + 4 > |data| then Err(Truncated)
        else if U32(data, starts) != segmentCount then Err(InvalidFixups)
        else
          var tableSize := 4 + segmentCount * 4;
          if starts + tableSize > |data| then Err(Truncated)
          else
            var table := FileRange(starts, tableSize);
            if Overlaps(table, importRange) || Overlaps(table, symbolRange) then Err(InvalidFixups)
            else Ok(Head(starts, tableSize, importRange, symbolRange))
  }

  function ParseFixups(bytes: seq<byte>, file: FileRange, segments: seq<Segment>, headerAddress: u64): Result<Fixups, Error>
    requires file.End() <= |bytes|
  {
    if file.size > MAX_FIXUP_BYTES then Err(LimitExceeded)
    else
      var data := bytes[file.offset..file.End()];
      var h :- ParseHead(data, |segments|);
      var seen :- FixupSegments(data, h, segments, headerAddress, 0, Seen([], 0, []));
      Ok(Fixups(file, U32(data, 16), U32(data, 20), U32(data, 24), seen.found))
  }

  //////////////////////////////////////////////////////////////////////////////
  // What an accepted fixup table promises
  //////////////////////////////////////////////////////////////////////////////

  /** From a cursor on, the starts of one page are valid and end inside the table. */
  predicate StartsEnd(info: seq<byte>, cursor: nat, pageSize: nat, backed: nat, format: u16)
    decreases if cursor < Slots(info) then Slots(info) - cursor else 0
  {
    && cursor < Slots(info)
    && PageStartOk(Slot(info, cursor) % 0x8000, pageSize, backed, format)
    && (Slot(info, cursor) >= 0x8000 || StartsEnd(info, cursor + 1, pageSize, backed, format))
  }

  predicate PageOk(info: seq<byte>, s: Segment, pageSize: nat, format: u16, page: nat) {
    && page < Slots(info)
    && var first, backed := Slot(info, page), Backed(s, page * pageSize);
       || first == 0xffff
       || (first < 0x8000 && PageStartOk(first, pageSize, backed, format))
       || (first >= 0x8000 && StartsEnd(info, first - 0x8000, pageSize, backed, format))
  }

  /** Where the record of a segment is in the data. */
  predicate RecordAt(data: seq<byte>, index: nat, at: nat, size: nat) {
    && 28 <= |data| && Readable(data, U32(data, 4) + 4 + index * 4, 4)
    && at == U32(data, 4) + U32(data, U32(data, 4) + 4 + index * 4)
    && Readable(data, at, 4) && size == U32(data, at) && at + size <= |data| && size >= 22
  }

  ghost predicate PagesOk(info: seq<byte>, s: Segment, f: FixupSegment) {
    forall page :: 0 <= page < f.pageCount ==> PageOk(info, s, f.pageSize, f.pointerFormat, page)
  }

  ghost predicate FixupOk(data: seq<byte>, segments: seq<Segment>, headerAddress: u64, f: FixupSegment) {
    && f.segmentIndex < |segments|
    && f.segmentOffset == WrapSub(segments[f.segmentIndex].address, headerAddress)
    && (f.pageSize == 4096 || f.pageSize == 16384)
    && exists at: nat, size: nat :: RecordAt(data, f.segmentIndex, at, size) && PagesOk(data[at..at + size], segments[f.segmentIndex], f)
  }

  /** How many slots a list of starts takes, to the slot with the high bit. */
  function StartCount(info: seq<byte>, cursor: nat): nat
    decreases if cursor < Slots(info) then Slots(info) - cursor else 0
  {
    if cursor >= Slots(info) then 0 else if Slot(info, cursor) >= 0x8000 then 1 else 1 + StartCount(info, cursor + 1)
  }

  /** A list of starts is accepted exactly when it is valid, ends inside the table and can be afforded; every slot is one visit. */
  lemma {:induction false} MultiStartsExact(info: seq<byte>, cursor: nat, pageSize: nat, backed: nat, format: u16, visits: nat)
    requires visits <= MAX_PAGE_START_VISITS
    ensures MultiStarts(info, cursor, pageSize, backed, format, visits).Ok? <==>
            StartsEnd(info, cursor, pageSize, backed, format) && visits + StartCount(info, cursor) <= MAX_PAGE_START_VISITS
    ensures MultiStarts(info, cursor, pageSize, backed, format, visits).Ok? ==>
              MultiStarts(info, cursor, pageSize, backed, format, visits).value == visits + StartCount(info, cursor)
    decreases if cursor < Slots(info) then Slots(info) - cursor else 0
  {
    hide PageStartOk, Slot, Slots;
    if visits + 1 <= MAX_PAGE_START_VISITS && cursor < Slots(info) && Slot(info, cursor) < 0x8000 {
      MultiStartsExact(info, cursor + 1, pageSize, backed, format, visits + 1);
    }
  }

  /** A list of starts does not begin among the slots of the pages. */
  predicate ListApart(info: seq<byte>, pageCount: nat, page: nat)
    requires page < pageCount <= Slots(info)
  {
    0x8000 <= Slot(info, page) < 0xffff ==> Slot(info, page) - 0x8000 >= pageCount
  }

  /** What one page adds to the totals. */
  function Counted(info: seq<byte>, page: nat, t: PageTotals): PageTotals
    requires page < Slots(info)
  {
    var first := Slot(info, page);
    if first == 0xffff then t.(visits := t.visits + 1)
    else if first < 0x8000 then t.(visits := t.visits + 1, withFixups := t.withFixups + 1)
    else PageTotals(t.visits + 1 + StartCount(info, first - 0x8000), t.withFixups + 1, t.multiple + 1)
  }

  function CountedFrom(info: seq<byte>, pageCount: nat, page: nat, t: PageTotals): (r: PageTotals)
    requires page <= pageCount <= Slots(info)
    ensures r.visits >= t.visits + (pageCount - page)
    decreases pageCount - page
  {
    if page == pageCount then t else CountedFrom(info, pageCount, page + 1, Counted(info, page, t))
  }

  lemma PageStepExact(info: seq<byte>, s: Segment, pageSize: nat, pageCount: nat, format: u16, page: nat, t: PageTotals)
    requires page < pageCount <= Slots(info) && t.visits <= MAX_PAGE_START_VISITS
    ensures PageStep(info, s, pageSize, pageCount, format, page, t).Ok? <==>
            PageOk(info, s, pageSize, format, page) && ListApart(info, pageCount, page) && Counted(info, page, t).visits <= MAX_PAGE_START_VISITS
    ensures PageStep(info, s, pageSize, pageCount, format, page, t).Ok? ==>
              PageStep(info, s, pageSize, pageCount, format, page, t).value == Counted(info, page, t)
  {
    hide PageStartOk, Slot, MultiStarts, StartsEnd, Backed, Slots, StartCount;
    if 0x8000 <= Slot(info, page) < 0xffff && t.visits + 1 <= MAX_PAGE_START_VISITS {
      MultiStartsExact(info, Slot(info, page) - 0x8000, pageSize, Backed(s, page * pageSize), format, t.visits + 1);
    }
  }

  /**
   The pages of a segment are accepted exactly when each is empty, has one valid start, or has a valid
   list that begins after the page slots and ends inside the table, and all visits can be afforded;
   then the totals count the visits, the pages with fixups and the pages with a list.
   */
  lemma {:induction false} PagesExact(info: seq<byte>, s: Segment, pageSize: nat, pageCount: nat, format: u16, page: nat, t: PageTotals)
    requires page <= pageCount <= Slots(info) && t.visits <= MAX_PAGE_START_VISITS
    ensures Pages(info, s, pageSize, pageCount, format, page, t).Ok? <==>
            (forall k :: page <= k < pageCount ==> PageOk(info, s, pageSize, format, k) && ListApart(info, pageCount, k)) &&
            CountedFrom(info, pageCount, page, t).visits <= MAX_PAGE_START_VISITS
    ensures Pages(info, s, pageSize, pageCount, format, page, t).Ok? ==>
              Pages(info, s, pageSize, pageCount, format, page, t).value == CountedFrom(info, pageCount, page, t)
    decreases pageCount - page
  {
    hide PageStep, PageOk, Slots, ListApart, Counted;
    if page < pageCount {
      PageStepExact(info, s, pageSize, pageCount, format, page, t);
      if PageStep(info, s, pageSize, pageCount, format, page, t).Ok? {
        PagesExact(info, s, pageSize, pageCount, format, page + 1, PageStep(info, s, pageSize, pageCount, format, page, t).value);
      }
    }
  }

  lemma FixupStepChecked(data: seq<byte>, h: Head, segments: seq<Segment>, index: nat, headerAddress: u64, seen: Seen)
    requires index < |segments| && 28 <= |data| && h.starts == U32(data, 4) && seen.visits <= MAX_PAGE_START_VISITS
    requires h.starts + 4 + index * 4 + 4 <= |data| <= MAX_FIXUP_BYTES
    requires FixupStep(data, h, segments[index], index, headerAddress, seen).Ok?
    ensures FixupStep(data, h, segments[index], index, headerAddress, seen).value.visits <= MAX_PAGE_START_VISITS
    ensures var found := FixupStep(data, h, segments[index], index, headerAddress, seen).value.found;
            found == seen.found || (|found| > 0 && found == seen.found + [found[|found| - 1]] && FixupOk(data, segments, headerAddress, found[|found| - 1]))
  {
    hide Slots, Pages, PageOk, AnyOverlaps, Overlaps, U16, U32, U64, CeilDiv;
    var relative := U32(data, h.starts + 4 + index * 4);
    var at := h.starts + relative;
    if relative != 0 {
      var size := U32(data, at);
      var info := data[at..at + size];
      var s := segments[index];
      assert RecordAt(data, index, at, size);
      PagesExact(info, s, U16(info, 4), U16(info, 20), U16(info, 6), 0, PageTotals(seen.visits, 0, 0));
    }
  }

  lemma {:induction false} FixupSegmentsChecked(data: seq<byte>, h: Head, segments: seq<Segment>, headerAddress: u64, index: nat, seen: Seen)
    requires index <= |segments| && 28 <= |data| && h.starts == U32(data, 4) && seen.visits <= MAX_PAGE_START_VISITS
    requires h.starts + 4 + |segments| * 4 <= |data| <= MAX_FIXUP_BYTES
    requires FixupSegments(data, h, segments, headerAddress, index, seen).Ok?
    requires forall i :: 0 <= i < |seen.found| ==> FixupOk(data, segments, headerAddress, seen.found[i])
    ensures var found := FixupSegments(data, h, segments, headerAddress, index, seen).value.found;
            forall i :: 0 <= i < |found| ==> FixupOk(data, segments, headerAddress, found[i])
    decreases |segments| - index
  {
    hide FixupStep, FixupOk, U32;
    if index < |segments| {
      FixupStepChecked(data, h, segments, index, headerAddress, seen);
      FixupSegmentsChecked(data, h, segments, headerAddress, index + 1, FixupStep(data, h, segments[index], index, headerAddress, seen).value);
    }
  }

  ghost predicate FixupsOk(bytes: seq<byte>, segments: seq<Segment>, headerAddress: u64, f: Fixups) {
    && f.file.End() <= |bytes| && 28 <= f.file.size <= MAX_FIXUP_BYTES
    && forall i :: 0 <= i < |f.segments| ==> FixupOk(bytes[f.file.offset..f.file.End()], segments, headerAddress, f.segments[i])
  }

  lemma FixupsChecked(bytes: seq<byte>, file: FileRange, segments: seq<Segment>, headerAddress: u64)
    requires file.End() <= |bytes| && ParseFixups(bytes, file, segments, headerAddress).Ok?
    ensures FixupsOk(bytes, segments, headerAddress, ParseFixups(bytes, file, segments, headerAddress).value)
  {
    hide FixupSegments, FixupOk, U32, Overlaps;
    var data := bytes[file.offset..file.End()];
    FixupSegmentsChecked(data, ParseHead(data, |segments|).value, segments, headerAddress, 0, Seen([], 0, []));
  }

  //////////////////////////////////////////////////////////////////////////////
  // Images
  //////////////////////////////////////////////////////////////////////////////

  const LINKEDIT: seq<byte> := [0x5f, 0x5f, 0x4c, 0x49, 0x4e, 0x4b, 0x45, 0x44, 0x49, 0x54, 0, 0, 0, 0, 0, 0]

  predicate InLinkedit(segments: seq<Segment>, r: FileRange) {
    r.size != 0 ==> exists i :: 0 <= i < |segments| && segments[i].name == LINKEDIT && Contains(segments[i].file, r)
  }

  predicate LinkeditOk(segments: seq<Segment>, ranges: seq<FileRange>) {
    && (forall i :: 0 <= i < |ranges| ==> InLinkedit(segments, ranges[i]))
    && (forall i, j :: 0 <= i < |segments| && 0 <= j < |segments[i].sections| ==> InLinkedit(segments, segments[i].sections[j].relocations.Range()))
  }

  /** The address of a header: its place in the first segment whose file bytes hold it. */
  function HeaderAddress(segments: seq<Segment>, header: FileRange): Option<u64>
    decreases |segments|
  {
    if segments == [] then None
    else if Contains(segments[0].file, header) && Fits64(segments[0].address + (header.offset - segments[0].file.offset))
      then Some(segments[0].address + (header.offset - segments[0].file.offset))
    else HeaderAddress(segments[1..], header)
  }

  function RangesError(bytes: seq<byte>, ranges: seq<FileRange>): Option<Error>
    decreases |ranges|
  {
    if ranges == [] then None
    else if RangeError(bytes, ranges[0]).Some? then RangeError(bytes, ranges[0])
    else RangesError(bytes, ranges[1..])
  }

  predicate CpuOk(arm: bool, subtype: u32) {
    if arm then subtype in {0, 1, 2, 0x8000_0002, 0x8100_0002, 0xc000_0002, 0xc100_0002, 0xc200_0002} else subtype == 3
  }

  function RelocationRanges(h: Decoded): seq<FileRange> {
    if h.relocations.None? then [] else [h.relocations.value.local.Range(), h.relocations.value.external.Range()]
  }

  function FixupRanges(h: Decoded): seq<FileRange> {
    if h.fixups.None? then [] else [h.fixups.value]
  }

  function AllRanges(h: Decoded): seq<FileRange> {
    h.linkedit + RelocationRanges(h) + FixupRanges(h)
  }

  /** The groups of local, defined and undefined symbols lie in the symbol table. */
  predicate SymbolsOk(h: Decoded) {
    h.relocations.Some? ==>
      h.symbolCount.Some? && forall i :: 0 <= i < |h.symbolGroups| ==> h.symbolGroups[i].first + h.symbolGroups[i].count <= h.symbolCount.value
  }

  function FixupsOf(bytes: seq<byte>, h: Decoded, headerAddress: u64): Result<Option<Fixups>, Error> {
    if h.fixups.None? then Ok(None)
    else if h.fixups.value.End() > |bytes| then Err(Truncated)
    else
      var f :- ParseFixups(bytes, h.fixups.value, h.segments, headerAddress);
      Ok(Some(f))
  }

  datatype Parsed = Parsed(image: Image, budget: Budget)

  /** The checks of `parse_image` on decoded load commands at a file offset. */
  function InspectImage(bytes: seq<byte>, base: u64, h: Decoded, outer: bool, arm: bool, budget: Budget): Result<Parsed, Error> {
    if !Fits64(base + 32) then Err(Overflow)
    else if base + 32 > |bytes| then Err(Truncated)
    else if !CpuOk(arm, h.cpuSubtype) then Err(UnsupportedCpu)
    else if (outer && h.fileType != 12) || (!outer && h.fileType != 2 && h.fileType != 11) then Err(UnsupportedFileType)
    else if h.commandBytes % 8 != 0 || h.commandCount > h.commandBytes / 8 then Err(InvalidHeader)
    else if budget.commands + h.commandCount > MAX_COMMANDS then Err(LimitExceeded)
    else if h.commandBytes > MAX_COMMAND_BYTES then Err(LimitExceeded)
    else if base + 32 + h.commandBytes > |bytes| then Err(if Fits64(base + 32 + h.commandBytes) then Truncated else Overflow)
    else
      var spent :- SegmentsError(bytes, h.segments, budget.(commands := budget.commands + h.commandCount));
      if RangesError(bytes, AllRanges(h)).Some? then Err(RangesError(bytes, AllRanges(h)).value)
      else if h.segments == [] then Err(InvalidHeader)
      else if !NonOverlap(h.segments) then Err(OverlappingRange)
      else
        var address := HeaderAddress(h.segments, FileRange(base, 32 + h.commandBytes));
        if address.None? then Err(InvalidHeader)
        else if !LinkeditOk(h.segments, AllRanges(h)) || !SymbolsOk(h) then Err(InvalidLinkedit)
        else
          var fixups :- FixupsOf(bytes, h, address.value);
          Ok(Parsed(Image(h.cpuSubtype, base, address.value, h.fileType, h.commandBytes, h.segments, h.entry, h.relocations, fixups), spent))
  }

  /** A segment places the header in memory. */
  predicate PlacesHeader(s: Segment, header: FileRange, address: u64) {
    Contains(s.file, header) && address == s.address + (header.offset - s.file.offset)
  }

  function Header(image: Image): FileRange
    requires image.commandBytes <= MAX_COMMAND_BYTES
  {
    FileRange(image.headerFileOffset, image.HeaderSize())
  }

  ghost predicate RelocationsOk(bytes: seq<byte>, image: Image) {
    image.relocations.Some? ==>
      image.relocations.value.local.Range().End() <= |bytes| && image.relocations.value.external.Range().End() <= |bytes|
  }

  /** What the inspector has established of an image it accepted. */
  ghost predicate ImageOk(bytes: seq<byte>, image: Image) {
    && image.commandBytes <= MAX_COMMAND_BYTES && Header(image).End() <= |bytes| && |image.segments| > 0
    && (forall i :: 0 <= i < |image.segments| ==> SegmentOk(bytes, image.segments[i]))
    && Pairwise(image.segments, ApartInMemory) && Pairwise(image.segments, ApartInFile)
    && (exists i :: 0 <= i < |image.segments| && PlacesHeader(image.segments[i], Header(image), image.headerAddress))
    && RelocationsOk(bytes, image)
    && (image.fixups.Some? ==> FixupsOk(bytes, image.segments, image.headerAddress, image.fixups.value))
  }

  lemma {:induction false} HeaderPlaced(segments: seq<Segment>, header: FileRange)
    requires HeaderAddress(segments, header).Some?
    ensures exists i :: 0 <= i < |segments| && PlacesHeader(segments[i], header, HeaderAddress(segments, header).value)
    decreases |segments|
  {
    hide Contains;
    if Contains(segments[0].file, header) && Fits64(segments[0].address + (header.offset - segments[0].file.offset)) {
      assert PlacesHeader(segments[0], header, HeaderAddress(segments, header).value);
    } else {
      HeaderPlaced(segments[1..], header);
      var i :| 0 <= i < |segments[1..]| && PlacesHeader(segments[1..][i], header, HeaderAddress(segments[1..], header).value);
      assert segments[i + 1] == segments[1..][i];
    }
  }

  lemma {:induction false} RangesChecked(bytes: seq<byte>, ranges: seq<FileRange>, r: FileRange)
    requires RangesError(bytes, ranges).None? && r in ranges
    ensures r.End() <= |bytes|
    decreases |ranges|
  {
    if r != ranges[0] {
      assert ranges == [ranges[0]] + ranges[1..];
      RangesChecked(bytes, ranges[1..], r);
    }
  }

  lemma RelocationsChecked(bytes: seq<byte>, h: Decoded)
    requires RangesError(bytes, AllRanges(h)).None? && h.relocations.Some?
    ensures h.relocations.value.local.Range().End() <= |bytes| && h.relocations.value.external.Range().End() <= |bytes|
  {
    var ranges := RelocationRanges(h);
    assert ranges[0] in AllRanges(h) && ranges[1] in AllRanges(h);
    hide RangesError, AllRanges;
    RangesChecked(bytes, AllRanges(h), ranges[0]);
    RangesChecked(bytes, AllRanges(h), ranges[1]);
  }

  lemma ImageChecked(bytes: seq<byte>, base: u64, h: Decoded, outer: bool, arm: bool, budget: Budget)
    requires InspectImage(bytes, base, h, outer, arm, budget).Ok?
    ensures var p := InspectImage(bytes, base, h, outer, arm, budget).value;
            && ImageOk(bytes, p.image) && p.image.headerFileOffset == base
            && (p.image.fileType == 2 || p.image.fileType == 11 || p.image.fileType == 12)
            && budget.segments + |p.image.segments| == p.budget.segments <= MAX_SEGMENTS
  {
    hide SegmentsError, NonOverlap, LinkeditOk, HeaderAddress, ParseFixups, RangesError, AllRanges, SegmentOk, FixupsOk, Pairwise, CpuOk, PlacesHeader;
    var p := InspectImage(bytes, base, h, outer, arm, budget).value;
    SegmentsChecked(bytes, h.segments, budget.(commands := budget.commands + h.commandCount));
    NonOverlapExact(h.segments);
    HeaderPlaced(h.segments, Header(p.image));
    if h.relocations.Some? {
      RelocationsChecked(bytes, h);
    }
    if h.fixups.Some? {
      FixupsChecked(bytes, h.fixups.value, h.segments, p.image.headerAddress);
    }
  }

  //////////////////////////////////////////////////////////////////////////////
  // The collection
  //////////////////////////////////////////////////////////////////////////////

  predicate Runs(s: Segment, e: Entry) {
    BitAnd(s.initialProtection, 4) != 0 &&
    match e
    case UnixThread64(ip) => ip >= s.address && ip - s.address < s.file.size
    case ArmThread64(ip, _, _, _) => ip % 4 == 0 && ip >= s.address && Fits64(ip - s.address + 4) && ip - s.address + 4 <= s.file.size
    case Main(_, _) => false
  }

  predicate EntryRuns(image: Image) {
    image.entry.Some? && exists i :: 0 <= i < |image.segments| && Runs(image.segments[i], image.entry.value)
  }

  function EntryError(image: Image): Option<Error> {
    if image.entry.None? then Some(MissingEntry)
    else if image.entry.value.Main? then Some(UnsupportedCollectionEntry)
    else if !EntryRuns(image) then Some(InvalidEntry)
    else None
  }

  /** A file range lies in this segment, at the displacement of the address. */
  predicate Shows(s: Segment, file: FileRange, address: u64) {
    Contains(s.file, file) && address >= s.address && address - s.address == file.offset - s.file.offset
  }

  predicate IsCollectionView(segments: seq<Segment>, file: FileRange, address: u64) {
    exists i :: 0 <= i < |segments| && Shows(segments[i], file, address)
  }

  predicate MapsRange(s: Segment, address: u64, size: u64) {
    Contains(FileRange(s.address, s.memorySize), FileRange(address, size))
  }

  predicate Mapped(segments: seq<Segment>, address: u64, size: u64) {
    exists i :: 0 <= i < |segments| && MapsRange(segments[i], address, size)
  }

  /** A segment of a member is memory, and file bytes, of the collection. */
  predicate MemberSegmentOk(outer: seq<Segment>, s: Segment) {
    && (s.memorySize != 0 ==> Mapped(outer, s.address, s.memorySize))
    && (s.file.size != 0 ==> IsCollectionView(outer, s.file, s.address))
  }

  predicate MemberOk(outer: seq<Segment>, member: Image) {
    && member.commandBytes <= MAX_COMMAND_BYTES
    && IsCollectionView(outer, Header(member), member.headerAddress)
    && forall i :: 0 <= i < |member.segments| ==> MemberSegmentOk(outer, member.segments[i])
  }

  function InspectMembers(bytes: seq<byte>, outer: Image, references: seq<Reference>, arm: bool, budget: Budget): Result<seq<Image>, Error>
    decreases |references|
  {
    if references == [] then Ok([])
    else
      var r := references[0];
      var child :- InspectImage(bytes, r.offset, r.header, false, arm, budget);
      if child.image.cpuSubtype != outer.cpuSubtype then Err(UnsupportedCpu)
      else if child.image.headerAddress != r.address then Err(InvalidMemberMapping)
      else if !MemberOk(outer.segments, child.image) then Err(InvalidMemberMapping)
      else
        var rest :- InspectMembers(bytes, outer, references[1..], arm, child.budget);
        Ok([child.image] + rest)
  }

  /** Two entries of the member table that share an offset, an address or an identifier. */
  predicate SameMember(a: Reference, b: Reference) {
    a.offset == b.offset || a.address == b.address || a.identifier == b.identifier
  }

  /** The checks of the member table, entry by entry. */
  function ReferencesError(bytes: seq<byte>, references: seq<Reference>, k: nat): Option<Error>
    requires k <= |references|
    decreases |references| - k
  {
    if k == |references| then None
    else
      var m := references[k];
      if k == MAX_MEMBERS then Some(LimitExceeded)
      else if m.identifier == [] || |m.identifier| > MAX_IDENTIFIER then Some(InvalidIdentifier)
      else if !Fits64(m.offset + 32) then Some(Overflow)
      else if m.offset + 32 > |bytes| then Some(Truncated)
      else if m.offset == 0 || exists j :: 0 <= j < k && SameMember(references[j], m) then Some(DuplicateMember)
      else ReferencesError(bytes, references, k + 1)
  }

  /** `inspect_profile`, from decoded load commands. */
  function Inspect(bytes: seq<byte>, header: Decoded, references: seq<Reference>, arm: bool): Result<Inspection, Error> {
    if |bytes| > MAX_INPUT_SIZE then Err(InputTooLarge)
    else if ReferencesError(bytes, references, 0).Some? then Err(ReferencesError(bytes, references, 0).value)
    else
      var outer :- InspectImage(bytes, 0, header, true, arm, Budget(0, 0, 0));
      if EntryError(outer.image).Some? then Err(EntryError(outer.image).value)
      else if references == [] then Err(InvalidHeader)
      else
        var members :- InspectMembers(bytes, outer.image, references, arm, outer.budget);
        Ok(Inspection(outer.image, members))
  }

  function SegmentCount(images: seq<Image>): nat {
    if images == [] then 0 else |images[0].segments| + SegmentCount(images[1..])
  }

  predicate KindOk(image: Image) {
    image.fileType == 2 || image.fileType == 11 || image.fileType == 12
  }

  /** Everything later stages may rely on. */
  ghost predicate Accepted(bytes: seq<byte>, i: Inspection) {
    && |bytes| <= MAX_INPUT_SIZE && 0 < |i.members| <= MAX_MEMBERS
    && ImageOk(bytes, i.collection) && i.collection.headerFileOffset == 0 && EntryRuns(i.collection) && KindOk(i.collection)
    && (forall k :: 0 <= k < |i.members| ==> ImageOk(bytes, i.members[k]) && MemberOk(i.collection.segments, i.members[k]) && KindOk(i.members[k]))
    && |i.collection.segments| + SegmentCount(i.members) <= MAX_SEGMENTS
  }

  lemma {:induction false} MembersChecked(bytes: seq<byte>, outer: Image, references: seq<Reference>, arm: bool, budget: Budget)
    requires InspectMembers(bytes, outer, references, arm, budget).Ok? && budget.segments <= MAX_SEGMENTS
    ensures var members := InspectMembers(bytes, outer, references, arm, budget).value;
            && |members| == |references| && budget.segments + SegmentCount(members) <= MAX_SEGMENTS
            && forall k :: 0 <= k < |members| ==> ImageOk(bytes, members[k]) && MemberOk(outer.segments, members[k]) && KindOk(members[k])
    decreases |references|
  {
    hide InspectImage, ImageOk, MemberOk;
    if references != [] {
      var r := references[0];
      ImageChecked(bytes, r.offset, r.header, false, arm, budget);
      var child := InspectImage(bytes, r.offset, r.header, false, arm, budget).value;
      MembersChecked(bytes, outer, references[1..], arm, child.budget);
      var rest := InspectMembers(bytes, outer, references[1..], arm, child.budget).value;
      assert ([child.image] + rest)[1..] == rest;
    }
  }

  lemma {:induction false} ReferencesBound(bytes: seq<byte>, references: seq<Reference>, k: nat)
    requires k <= |references| && k <= MAX_MEMBERS && ReferencesError(bytes, references, k).None?
    ensures |references| <= MAX_MEMBERS
    decreases |references| - k
  {
    hide SameMember;
    if k < |references| {
      ReferencesBound(bytes, references, k + 1);
    }
  }

  /** The inspector accepts only collections on which every fact of `Accepted` holds. */
  lemma InspectAccepted(bytes: seq<byte>, header: Decoded, references: seq<Reference>, arm: bool)
    requires Inspect(bytes, header, references, arm).Ok?
    ensures Accepted(bytes, Inspect(bytes, header, references, arm).value)
  {
    hide InspectImage, InspectMembers, ImageOk, MemberOk, EntryRuns;
    ImageChecked(bytes, 0, header, true, arm, Budget(0, 0, 0));
    var outer := InspectImage(bytes, 0, header, true, arm, Budget(0, 0, 0)).value;
    ReferencesBound(bytes, references, 0);
    MembersChecked(bytes, outer.image, references, arm, outer.budget);
  }

  //////////////////////////////////////////////////////////////////////////////
  // The loops of the inspector
  //////////////////////////////////////////////////////////////////////////////

  /** The window loop of `validate_nonoverlap` over sorted spans. */
  method CheckNeighbours(sorted: seq<Span>) returns (ok: bool)
    ensures ok == Chained(sorted)
  {
    var i := 0;
    while i + 1 < |sorted|
      invariant i == 0 || i < |sorted|
      invariant forall k :: 0 <= k < i ==> sorted[k].end <= sorted[k + 1].start
    {
      if sorted[i].end > sorted[i + 1].start {
        return false;
      }
      i := i + 1;
    }
    return true;
  }

  method ValidateNonoverlap(segments: seq<Segment>) returns (ok: bool)
    ensures ok <==> Pairwise(segments, ApartInMemory) && Pairwise(segments, ApartInFile)
  {
    NonOverlapExact(segments);
    var memory := CheckNeighbours(Sort(AddressSpans(segments), Start));
    var file := CheckNeighbours(Sort(FileSpans(segments), Start));
    return memory && file;
  }

  method WalkStarts(info: seq<byte>, from: nat, pageSize: nat, backed: nat, format: u16, visited: nat) returns (r: Result<nat, Error>)
    ensures r == MultiStarts(info, from, pageSize, backed, format, visited)
  {
    var cursor: nat, visits: nat := from, visited;
    while true
      invariant MultiStarts(info, from, pageSize, backed, format, visited) == MultiStarts(info, cursor, pageSize, backed, format, visits)
      decreases if cursor < Slots(info) then Slots(info) - cursor else 0
    {
      visits := visits + 1;
      if visits > MAX_PAGE_START_VISITS {
        return Err(LimitExceeded);
      }
      if cursor >= Slots(info) {
        return Err(InvalidFixups);
      }
      var value := Slot(info, cursor);
      if !PageStartOk(value % 0x8000, pageSize, backed, format) {
        return Err(InvalidFixups);
      }
      if value >= 0x8000 {
        return Ok(visits);
      }
      cursor := cursor + 1;
    }
  }

  method WalkPages(info: seq<byte>, s: Segment, pageSize: nat, pageCount: nat, format: u16, visited: nat) returns (r: Result<PageTotals, Error>)
    requires pageCount <= Slots(info)
    ensures r == Pages(info, s, pageSize, pageCount, format, 0, PageTotals(visited, 0, 0))
  {
    hide Slots, Slot, PageStartOk, MultiStarts, Backed;
    var visits: nat, withFixups: nat, multiple: nat := visited, 0, 0;
    var page: nat := 0;
    while page < pageCount
      invariant page <= pageCount
      invariant Pages(info, s, pageSize, pageCount, format, 0, PageTotals(visited, 0, 0))
             == Pages(info, s, pageSize, pageCount, format, page, PageTotals(visits, withFixups, multiple))
    {
      visits := visits + 1;
      if visits > MAX_PAGE_START_VISITS {
        return Err(LimitExceeded);
      }
      var first := Slot(info, page);
      if first != 0xffff {
        withFixups := withFixups + 1;
        var backed := Backed(s, page * pageSize);
        if first < 0x8000 {
          if !PageStartOk(first, pageSize, backed, format) {
            return Err(InvalidFixups);
          }
        } else {
          multiple := multiple + 1;
          if first - 0x8000 < pageCount {
            return Err(InvalidFixups);
          }
          var walked := WalkStarts(info, first - 0x8000, pageSize, backed, format, visits);
          if walked.Err? {
            return Err(walked.error);
          }
          visits := walked.value;
        }
      }
      page := page + 1;
    }
    return Ok(PageTotals(visits, withFixups, multiple));
  }

  method ReadFixups(bytes: seq<byte>, file: FileRange, segments: seq<Segment>, headerAddress: u64) returns (r: Result<Fixups, Error>)
    requires file.End() <= |bytes|
    ensures r == ParseFixups(bytes, file, segments, headerAddress)
  {
    hide ParseHead, FixupStep, U32;
    if file.size > MAX_FIXUP_BYTES {
      return Err(LimitExceeded);
    }
    var data := bytes[file.offset..file.End()];
    var head := ParseHead(data, |segments|);
    if head.Err? {
      return Err(head.error);
    }
    HeadInside(data, |segments|);
    var seen := Seen([], 0, []);
    var index: nat := 0;
    while index < |segments|
      invariant index <= |segments|
      invariant FixupSegments(data, head.value, segments, headerAddress, 0, Seen([], 0, []))
             == FixupSegments(data, head.value, segments, headerAddress, index, seen)
    {
      var next := FixupStep(data, head.value, segments[index], index, headerAddress, seen);
      if next.Err? {
        return Err(next.error);
      }
      seen := next.value;
      index := index + 1;
    }
    return Ok(Fixups(file, U32(data, 16), U32(data, 20), U32(data, 24), seen.found));
  }

  lemma HeadInside(data: seq<byte>, segmentCount: nat)
    requires |data| <= MAX_FIXUP_BYTES && ParseHead(data, segmentCount).Ok?
    ensures |data| >= 28 && ParseHead(data, segmentCount).value.starts + 4 + segmentCount * 4 <= |data|
  {
    hide U32, Overlaps;
  }
}
