/**
 The two startup companions: the layout of an image from its decoded segments, its placement in guest
 memory after an earlier allocation, and what the page tables built from the placements read back.
 */
module StartupImage {
  import opened Wrappers
  import opened Words
  import opened Sorting
  import S = Staging
  import A = StagingArena
  import P = PageTree
  import T = Stage1

  const MAX_FILE_SIZE: nat := 0x800_0000
  const MAX_IMAGE_SIZE: nat := 0x800_0000
  const MAX_COMMAND_BYTES: nat := 0x10_0000
  const MAX_SEGMENTS: nat := 128

  datatype StartupError =
    | Truncated
    | InvalidHeader
    | InvalidSegment
    | OverlappingRange
    | MissingSegments
    | LimitExceeded
    | AddressOverflow
    | ArenaBounds

  datatype Piece = Piece(vmaddr: u64, vmsize: u64, fileoff: u64, filesize: u64) {
    function End(): nat {
      vmaddr + vmsize
    }
  }

  /** A companion with its load commands decoded; the page-zero segment is kept apart. */
  datatype Companion = Companion(source: seq<byte>, commandBytes: u32, pageZeroEnd: Option<u64>, segments: seq<Piece>)

  datatype Image = Image(source: seq<byte>, segments: seq<Piece>, virtualBase: u64, span: nat, copiedBytes: nat)

  datatype Placement = Placement(physicalBase: u64, virtualBase: u64, bytes: nat, copiedBytes: nat)

  datatype StartupPlacement = StartupPlacement(sptm: Placement, txm: Placement, occupiedEnd: nat)

  //////////////////////////////////////////////////////////////////////////////
  // The layout of one image
  //////////////////////////////////////////////////////////////////////////////

  function PieceError(source: seq<byte>, p: Piece): Option<StartupError> {
    if p.vmsize == 0 || p.filesize > p.vmsize || !Fits64(p.End()) then Some(InvalidSegment)
    else if !Fits64(p.fileoff + p.filesize) then Some(AddressOverflow)
    else if p.fileoff + p.filesize > |source| then Some(Truncated)
    else None
  }

  function PiecesError(source: seq<byte>, segments: seq<Piece>, k: nat): Option<StartupError>
    requires k <= |segments|
    decreases |segments| - k
  {
    if k == |segments| then None
    else if k >= MAX_SEGMENTS then Some(InvalidSegment)
    else if PieceError(source, segments[k]).Some? then PieceError(source, segments[k])
    else PiecesError(source, segments, k + 1)
  }

  function Vmaddr(p: Piece): int {
    p.vmaddr
  }

  predicate InAddressOrder(segments: seq<Piece>) {
    forall i :: 0 <= i < |segments| - 1 ==> segments[i].End() <= segments[i + 1].vmaddr
  }

  predicate FilesOverlap(a: Piece, b: Piece) {
    a.filesize != 0 && b.filesize != 0 && a.fileoff < b.fileoff + b.filesize && b.fileoff < a.fileoff + a.filesize
  }

  predicate AnyFilesOverlap(segments: seq<Piece>) {
    exists i, j :: 0 <= j < i < |segments| && FilesOverlap(segments[i], segments[j])
  }

  predicate HasHeader(segments: seq<Piece>, size: nat) {
    exists i :: 0 <= i < |segments| && segments[i].fileoff == 0 && segments[i].filesize >= size
  }

  function AlignUp(x: u64): (r: Result<nat, StartupError>)
    ensures r.Ok? ==> r.value < U64_LIMIT
  {
    if !Fits64(x + 0x3fff) then Err(AddressOverflow) else Ok(RoundDown(x + 0x3fff, 0x4000))
  }

  function Copied(segments: seq<Piece>): nat {
    if segments == [] then 0 else Copied(segments[..|segments| - 1]) + segments[|segments| - 1].filesize
  }

  /** The layout part of `parse_image`. */
  function Layout(c: Companion): Result<Image, StartupError> {
    if |c.source| > MAX_FILE_SIZE || c.commandBytes > MAX_COMMAND_BYTES then Err(LimitExceeded)
    else if c.commandBytes % 8 != 0 then Err(InvalidHeader)
    else if 32 + c.commandBytes > |c.source| then Err(Truncated)
    else if PiecesError(c.source, c.segments, 0).Some? then Err(PiecesError(c.source, c.segments, 0).value)
    else if c.segments == [] then Err(MissingSegments)
    else
      var segments := Sort(c.segments, Vmaddr);
      var last := segments[|segments| - 1];
      if c.pageZeroEnd.Some? && c.pageZeroEnd.value > segments[0].vmaddr then Err(OverlappingRange)
      else if !HasHeader(segments, 32 + c.commandBytes) then Err(InvalidHeader)
      else if !InAddressOrder(segments) || AnyFilesOverlap(segments) then Err(OverlappingRange)
      else if !Fits64(last.End()) then Err(AddressOverflow)
      else
        var virtualEnd :- AlignUp(last.End());
        var virtualBase := RoundDown(segments[0].vmaddr, 0x4000);
        if virtualEnd < virtualBase then Err(AddressOverflow)
        else if virtualEnd == virtualBase || virtualEnd - virtualBase > MAX_IMAGE_SIZE then Err(LimitExceeded)
        else if !Fits64(Copied(segments)) then Err(AddressOverflow)
        else Ok(Image(c.source, segments, virtualBase, virtualEnd - virtualBase, Copied(segments)))
  }

  /** The staging form of a laid-out image: offsets from its virtual base. */
  function PlanOf(image: Image): (p: S.Plan)
    requires forall k :: 0 <= k < |image.segments| ==> image.virtualBase <= image.segments[k].vmaddr
    ensures |p.segments| == |image.segments| && p.arenaSize == image.span
  {
    S.Plan(seq(|image.segments|, k requires 0 <= k < |image.segments| => PieceForm(image, k)), [], image.virtualBase, image.span, 0, 0)
  }

  function PieceForm(image: Image, k: nat): S.StagingSegment
    requires k < |image.segments| && image.virtualBase <= image.segments[k].vmaddr
  {
    var s := image.segments[k];
    S.StagingSegment(k, s.vmaddr, s.vmaddr - image.virtualBase, s.vmsize, s.fileoff, s.filesize)
  }

  predicate PieceOk(image: Image, p: Piece) {
    && 0 < p.vmsize && p.filesize <= p.vmsize && p.fileoff + p.filesize <= |image.source|
    && image.virtualBase <= p.vmaddr && p.End() <= image.virtualBase + image.span
  }

  /** What a laid-out image promises. */
  ghost predicate ImageOk(image: Image) {
    && image.virtualBase % 0x4000 == 0 && image.span % 0x4000 == 0 && 0 < image.span <= MAX_IMAGE_SIZE
    && InAddressOrder(image.segments) && forall k :: 0 <= k < |image.segments| ==> PieceOk(image, image.segments[k])
  }

  lemma {:induction false} PiecesChecked(source: seq<byte>, segments: seq<Piece>, k: nat)
    requires k <= |segments| && PiecesError(source, segments, k).None?
    ensures forall j :: k <= j < |segments| ==> PieceError(source, segments[j]).None?
    decreases |segments| - k
  {
    if k < |segments| {
      PiecesChecked(source, segments, k + 1);
    }
  }

  lemma Aligned(x: u64)
    requires Fits64(x + 0x3fff)
    ensures AlignUp(x).Ok? && x <= AlignUp(x).value < x + 0x4000 && AlignUp(x).value % 0x4000 == 0 && AlignUp(x).value < U64_LIMIT
  {
    hide RoundDown;
    S.Rounded(x + 0x3fff, 0x4000);
    RoundedMultiple(x + 0x3fff, 0x4000);
  }

  lemma RoundedDown(x: u64)
    ensures x - 0x4000 < RoundDown(x, 0x4000) <= x && RoundDown(x, 0x4000) % 0x4000 == 0
  {
    hide RoundDown;
    S.Rounded(x, 0x4000);
    RoundedMultiple(x, 0x4000);
  }

  lemma {:induction false} OrderHolds(segments: seq<Piece>, i: nat, j: nat)
    requires InAddressOrder(segments) && i < j < |segments| && forall k :: 0 <= k < |segments| ==> segments[k].vmsize > 0
    ensures segments[i].End() <= segments[j].vmaddr
    decreases j
  {
    if i < j - 1 {
      OrderHolds(segments, i, j - 1);
      assert segments[j - 1].End() <= segments[j - 1 + 1].vmaddr;
    }
  }

  lemma MultipleDifference(a: nat, b: nat)
    requires a % 0x4000 == 0 && b % 0x4000 == 0 && b <= a
    ensures (a - b) % 0x4000 == 0
  {
  }

  /** No two segments share a file byte. */
  ghost predicate FilesApart(segments: seq<Piece>) {
    forall i, j :: 0 <= i < |segments| && 0 <= j < |segments| && i != j ==> !FilesOverlap(segments[i], segments[j])
  }

  /** No segment begins below an address. */
  predicate AllAtLeast(segments: seq<Piece>, address: nat) {
    forall k :: 0 <= k < |segments| ==> address <= segments[k].vmaddr
  }

  /**
   A laid-out image has the segments it was given, in address order, apart in memory and in the file and
   above page zero, in a span of whole pages; one of them holds the header, and its copied bytes are the
   sum of their file sizes.
   */
  lemma LayoutHolds(c: Companion)
    requires Layout(c).Ok?
    ensures ImageOk(Layout(c).value) && Layout(c).value.source == c.source
    ensures multiset(Layout(c).value.segments) == multiset(c.segments)
    ensures FilesApart(Layout(c).value.segments) && HasHeader(Layout(c).value.segments, 32 + c.commandBytes)
    ensures c.pageZeroEnd.Some? ==> AllAtLeast(Layout(c).value.segments, c.pageZeroEnd.value)
    ensures Layout(c).value.copiedBytes == Copied(c.segments)
  {
    hide RoundDown, Copied, HasHeader, AnyFilesOverlap, Sort, PiecesError, InAddressOrder, PieceError, AlignUp, FilesApart, AllAtLeast;
    var image := Layout(c).value;
    var segments := image.segments;
    PiecesChecked(c.source, c.segments, 0);
    SortPermutes(c.segments, Vmaddr);
    forall k | 0 <= k < |segments| ensures PieceError(c.source, segments[k]).None? {
      SortMembers(c.segments, Vmaddr, segments[k]);
    }
    LayoutBounds(c.source, segments);
    PiecesOk(image);
    NoOverlap(segments);
    LowestFirst(c.segments);
    CopiedSort(c.segments);
  }

  lemma NoOverlap(segments: seq<Piece>)
    requires !AnyFilesOverlap(segments)
    ensures FilesApart(segments)
  {
    forall i, j | 0 <= i < |segments| && 0 <= j < |segments| && i != j ensures !FilesOverlap(segments[i], segments[j]) {
      assert i < j ==> !FilesOverlap(segments[j], segments[i]);
    }
  }

  lemma LowestFirst(segments: seq<Piece>)
    requires segments != []
    ensures AllAtLeast(Sort(segments, Vmaddr), Sort(segments, Vmaddr)[0].vmaddr)
    ensures forall a: nat :: a <= Sort(segments, Vmaddr)[0].vmaddr ==> AllAtLeast(Sort(segments, Vmaddr), a)
  {
    var t := Sort(segments, Vmaddr);
    SortSorted(segments, Vmaddr);
    hide Sort;
    forall k | 0 <= k < |t| ensures t[0].vmaddr <= t[k].vmaddr {
      assert k > 0 ==> Vmaddr(t[0]) <= Vmaddr(t[k]);
    }
  }

  lemma {:induction false} CopiedCons(p: Piece, rest: seq<Piece>)
    ensures Copied([p] + rest) == p.filesize + Copied(rest)
    decreases |rest|
  {
    var all := [p] + rest;
    if rest == [] {
      assert all[..0] == [];
    } else {
      assert all[..|all| - 1] == [p] + rest[..|rest| - 1];
      CopiedCons(p, rest[..|rest| - 1]);
    }
  }

  lemma {:induction false} CopiedInsert(s: seq<Piece>, p: Piece)
    ensures Copied(Insert(s, p, Vmaddr)) == p.filesize + Copied(s)
  {
    hide Copied;
    if s == [] || Vmaddr(p) <= Vmaddr(s[0]) {
      CopiedCons(p, s);
    } else {
      CopiedInsert(s[1..], p);
      CopiedCons(s[0], Insert(s[1..], p, Vmaddr));
      CopiedCons(s[0], s[1..]);
      assert s == [s[0]] + s[1..];
    }
  }

  /** Sorting does not change how many bytes there are to copy. */
  lemma {:induction false} CopiedSort(s: seq<Piece>)
    ensures Copied(Sort(s, Vmaddr)) == Copied(s)
  {
    hide Copied;
    if s != [] {
      CopiedSort(s[1..]);
      CopiedInsert(Sort(s[1..], Vmaddr), s[0]);
      CopiedCons(s[0], s[1..]);
      assert s == [s[0]] + s[1..];
    }
  }

  lemma LayoutBounds(source: seq<byte>, segments: seq<Piece>)
    requires segments != [] && Fits64(segments[|segments| - 1].End()) && AlignUp(segments[|segments| - 1].End()).Ok?
    ensures var base := RoundDown(segments[0].vmaddr, 0x4000);
            && base % 0x4000 == 0 && base <= segments[0].vmaddr
            && AlignUp(segments[|segments| - 1].End()).value % 0x4000 == 0
            && segments[|segments| - 1].End() <= AlignUp(segments[|segments| - 1].End()).value
    ensures var (base, end) := (RoundDown(segments[0].vmaddr, 0x4000), AlignUp(segments[|segments| - 1].End()).value);
            base <= end ==> (end - base) % 0x4000 == 0
  {
    var last := segments[|segments| - 1].End();
    AlignFits(last);
    Aligned(last);
    RoundedDown(segments[0].vmaddr);
    hide RoundDown, AlignUp;
    var base, end := RoundDown(segments[0].vmaddr, 0x4000), AlignUp(last).value;
    if base <= end {
      MultipleDifference(end, base);
    }
  }

  lemma AlignFits(x: u64)
    requires AlignUp(x).Ok?
    ensures Fits64(x + 0x3fff)
  {
    hide RoundDown;
  }

  lemma PiecesOk(image: Image)
    requires image.segments != [] && InAddressOrder(image.segments)
    requires forall k :: 0 <= k < |image.segments| ==> PieceError(image.source, image.segments[k]).None?
    requires image.virtualBase <= image.segments[0].vmaddr
    requires image.segments[|image.segments| - 1].End() <= image.virtualBase + image.span
    ensures forall k :: 0 <= k < |image.segments| ==> PieceOk(image, image.segments[k])
  {
    var segments := image.segments;
    forall k: nat | k < |segments| ensures segments[k].vmsize > 0 {
      assert PieceError(image.source, segments[k]).None?;
    }
    hide InAddressOrder;
    forall k: nat | k < |segments| ensures PieceOk(image, segments[k]) {
      assert PieceError(image.source, segments[k]).None?;
      if 0 < k {
        OrderHolds(segments, 0, k);
      }
      if k < |segments| - 1 {
        OrderHolds(segments, k, |segments| - 1);
      }
    }
  }

  //////////////////////////////////////////////////////////////////////////////
  // Exactly when an image is laid out, and where
  //////////////////////////////////////////////////////////////////////////////

  /** One segment: nonempty memory that ends in the address space and covers its file bytes, which are in the file. */
  predicate PieceFits(source: seq<byte>, p: Piece) {
    0 < p.vmsize && p.filesize <= p.vmsize && p.vmaddr + p.vmsize < U64_LIMIT && p.fileoff + p.filesize <= |source|
  }

  predicate MemoryApart(a: Piece, b: Piece) {
    a.vmaddr + a.vmsize <= b.vmaddr || b.vmaddr + b.vmsize <= a.vmaddr
  }

  predicate FileApart(a: Piece, b: Piece) {
    a.filesize == 0 || b.filesize == 0 || a.fileoff + a.filesize <= b.fileoff || b.fileoff + b.filesize <= a.fileoff
  }

  /** The companion as given, before any sorting: between 1 and 128 fitting segments, apart in memory and in the file, above page zero, one of them with the header. */
  ghost predicate Layable(c: Companion) {
    && |c.source| <= MAX_FILE_SIZE && c.commandBytes <= MAX_COMMAND_BYTES && c.commandBytes % 8 == 0 && 32 + c.commandBytes <= |c.source|
    && 0 < |c.segments| <= MAX_SEGMENTS
    && (forall k :: 0 <= k < |c.segments| ==> PieceFits(c.source, c.segments[k]))
    && Pairwise(c.segments, MemoryApart) && Pairwise(c.segments, FileApart)
    && (exists k :: 0 <= k < |c.segments| && c.segments[k].fileoff == 0 && c.segments[k].filesize >= 32 + c.commandBytes)
    && (c.pageZeroEnd.Some? ==> AllAtLeast(c.segments, c.pageZeroEnd.value))
  }

  ghost predicate LowestAddress(segments: seq<Piece>, a: nat) {
    && (exists k :: 0 <= k < |segments| && segments[k].vmaddr == a)
    && (forall k :: 0 <= k < |segments| ==> a <= segments[k].vmaddr)
  }

  ghost predicate HighestEnd(segments: seq<Piece>, e: nat) {
    && (exists k :: 0 <= k < |segments| && segments[k].vmaddr + segments[k].vmsize == e)
    && (forall k :: 0 <= k < |segments| ==> segments[k].vmaddr + segments[k].vmsize <= e)
  }

  /** The page boundary at or after an address. */
  predicate PageAfter(a: nat, x: nat) {
    a % 0x4000 == 0 && x <= a < x + 0x4000
  }

  predicate PageBefore(a: nat, x: nat) {
    a % 0x4000 == 0 && a <= x < a + 0x4000
  }

  lemma AlignUpExact(x: u64, page: nat)
    requires PageAfter(page, x)
    ensures AlignUp(x) == if page < U64_LIMIT then Ok(page) else Err(AddressOverflow)
  {
    hide RoundDown;
    if Fits64(x + 0x3fff) {
      Aligned(x);
      assert U64_LIMIT % 0x4000 == 0;
    }
  }

  lemma RoundDownExact(x: u64, page: nat)
    requires PageBefore(page, x)
    ensures RoundDown(x, 0x4000) == page
  {
    hide RoundDown;
    RoundedDown(x);
  }

  lemma {:induction false} PiecesErrorExact(source: seq<byte>, segments: seq<Piece>, k: nat)
    requires k <= |segments| && |source| <= MAX_FILE_SIZE
    ensures PiecesError(source, segments, k).None? <==>
              (k == |segments| || |segments| <= MAX_SEGMENTS) && forall j :: k <= j < |segments| ==> PieceFits(source, segments[j])
    decreases |segments| - k
  {
    if k < |segments| {
      PiecesErrorExact(source, segments, k + 1);
      assert PieceError(source, segments[k]).None? <==> PieceFits(source, segments[k]);
      hide PieceError, PieceFits;
    }
  }

  /** Sorted segments are in order exactly when they are apart, whatever order they came in. */
  lemma OrderedIsApart(segments: seq<Piece>)
    requires forall k :: 0 <= k < |segments| ==> segments[k].vmsize > 0
    ensures InAddressOrder(Sort(segments, Vmaddr)) <==> Pairwise(segments, MemoryApart)
  {
    var t := Sort(segments, Vmaddr);
    SortSorted(segments, Vmaddr);
    SortPairwise(segments, Vmaddr, MemoryApart);
    SortNonempty(segments);
    hide Sort;
    if InAddressOrder(t) {
      forall i: nat, j: nat | i < j < |t| ensures MemoryApart(t[i], t[j]) {
        OrderHolds(t, i, j);
      }
    }
    if Pairwise(t, MemoryApart) {
      forall i | 0 <= i < |t| - 1 ensures t[i].End() <= t[i + 1].vmaddr {
        assert MemoryApart(t[i], t[i + 1]) && Vmaddr(t[i]) <= Vmaddr(t[i + 1]);
      }
    }
  }

  lemma SortNonempty(segments: seq<Piece>)
    requires forall k :: 0 <= k < |segments| ==> segments[k].vmsize > 0
    ensures forall k :: 0 <= k < |Sort(segments, Vmaddr)| ==> Sort(segments, Vmaddr)[k].vmsize > 0
  {
    hide Sort;
    forall k | 0 <= k < |Sort(segments, Vmaddr)| ensures Sort(segments, Vmaddr)[k].vmsize > 0 {
      SortMembers(segments, Vmaddr, Sort(segments, Vmaddr)[k]);
    }
  }

  lemma OverlapIsNotApart(segments: seq<Piece>)
    ensures !AnyFilesOverlap(Sort(segments, Vmaddr)) <==> Pairwise(segments, FileApart)
  {
    hide Sort;
    var t := Sort(segments, Vmaddr);
    SortPairwise(segments, Vmaddr, FileApart);
    if !AnyFilesOverlap(t) {
      forall i, j | 0 <= i < j < |t| ensures FileApart(t[i], t[j]) {
        assert !FilesOverlap(t[j], t[i]);
      }
    }
    if AnyFilesOverlap(t) {
      var i, j :| 0 <= j < i < |t| && FilesOverlap(t[i], t[j]);
      assert !FileApart(t[j], t[i]);
    }
  }

  lemma HeaderAnywhere(segments: seq<Piece>, size: nat)
    ensures HasHeader(Sort(segments, Vmaddr), size) <==> exists k :: 0 <= k < |segments| && segments[k].fileoff == 0 && segments[k].filesize >= size
  {
    hide Sort;
    var t := Sort(segments, Vmaddr);
    if HasHeader(t, size) {
      var k :| 0 <= k < |t| && t[k].fileoff == 0 && t[k].filesize >= size;
      SortMembers(segments, Vmaddr, t[k]);
      var j :| 0 <= j < |segments| && segments[j] == t[k];
    }
    if k :| 0 <= k < |segments| && segments[k].fileoff == 0 && segments[k].filesize >= size {
      SortMembers(segments, Vmaddr, segments[k]);
      var j :| 0 <= j < |t| && t[j] == segments[k];
    }
  }

  /** The first of the sorted segments has the lowest address, and, if they are apart, the last the highest end. */
  lemma EndsOfSorted(segments: seq<Piece>, low: nat, high: nat)
    requires segments != [] && LowestAddress(segments, low) && HighestEnd(segments, high)
    requires forall k :: 0 <= k < |segments| ==> segments[k].vmsize > 0
    ensures var t := Sort(segments, Vmaddr); t[0].vmaddr == low && (InAddressOrder(t) ==> t[|t| - 1].End() == high)
  {
    hide Sort;
    var t := Sort(segments, Vmaddr);
    SortSorted(segments, Vmaddr);
    SortNonempty(segments);
    var k :| 0 <= k < |segments| && segments[k].vmaddr == low;
    SortMembers(segments, Vmaddr, segments[k]);
    var j :| 0 <= j < |t| && t[j] == segments[k];
    SortMembers(segments, Vmaddr, t[0]);
    assert j > 0 ==> Vmaddr(t[0]) <= Vmaddr(t[j]);
    if InAddressOrder(t) {
      var n := |t| - 1;
      var e :| 0 <= e < |segments| && segments[e].vmaddr + segments[e].vmsize == high;
      SortMembers(segments, Vmaddr, segments[e]);
      var f: nat :| f < |t| && t[f] == segments[e];
      SortMembers(segments, Vmaddr, t[n]);
      if f < n {
        OrderHolds(t, f, n);
      }
    }
  }

  lemma PageZeroAnywhere(segments: seq<Piece>, a: nat, low: nat)
    requires segments != [] && LowestAddress(segments, low)
    ensures a <= low <==> AllAtLeast(segments, a)
  {
  }

  lemma {:induction false} CopiedBound(segments: seq<Piece>, bound: nat)
    requires forall k :: 0 <= k < |segments| ==> segments[k].filesize <= bound
    ensures Copied(segments) <= |segments| * bound
  {
    if segments != [] {
      CopiedBound(segments[..|segments| - 1], bound);
    }
  }

  lemma CopiedSmall(c: Companion)
    requires |c.segments| <= MAX_SEGMENTS && |c.source| <= MAX_FILE_SIZE && forall k :: 0 <= k < |c.segments| ==> PieceFits(c.source, c.segments[k])
    ensures Copied(Sort(c.segments, Vmaddr)) == Copied(c.segments) && Fits64(Copied(c.segments))
  {
    CopiedSort(c.segments);
    CopiedBound(c.segments, 0x800_0000);
    hide Copied, Sort;
  }

  /**
   An image is laid out exactly when the companion as given is sound and its span of whole pages, from the
   page of its lowest address to the page boundary after its highest end, is small enough and ends in the
   address space; it is then laid out over exactly that span.
   */
  lemma LayoutExact(c: Companion, low: nat, high: nat, base: nat, end: nat)
    requires c.segments != [] ==> LowestAddress(c.segments, low) && HighestEnd(c.segments, high)
    requires PageBefore(base, low) && PageAfter(end, high)
    ensures Layout(c).Ok? <==> Layable(c) && end < U64_LIMIT && end - base <= MAX_IMAGE_SIZE
    ensures Layout(c).Ok? ==> Layout(c).value.virtualBase == base && Layout(c).value.span == end - base
  {
    hide *;
    if c.segments != [] && |c.source| <= 0x800_0000 {
      LayoutOfPieces(c, low, high, base, end);
    } else {
      LayoutOfNothing(c);
    }
  }

  lemma LayoutOfNothing(c: Companion)
    requires c.segments == [] || |c.source| > 0x800_0000
    ensures Layout(c).Err? && !Layable(c)
  {
  }

  lemma LayoutOfPieces(c: Companion, low: nat, high: nat, base: nat, end: nat)
    requires c.segments != [] && |c.source| <= 0x800_0000 && LowestAddress(c.segments, low) && HighestEnd(c.segments, high)
    requires PageBefore(base, low) && PageAfter(end, high)
    ensures Layout(c).Ok? <==> Layable(c) && end < U64_LIMIT && end - base <= MAX_IMAGE_SIZE
    ensures Layout(c).Ok? ==> Layout(c).value.virtualBase == base && Layout(c).value.span == end - base
  {
    hide LowestAddress, HighestEnd, Pairwise, Copied, HasHeader, AnyFilesOverlap, Sort, PiecesError, InAddressOrder, PieceError, AlignUp, AllAtLeast, RoundDown, PieceFits;
    PiecesErrorExact(c.source, c.segments, 0);
    if PiecesError(c.source, c.segments, 0).None? {
      FittingNonempty(c);
      OrderedIsApart(c.segments);
      OverlapIsNotApart(c.segments);
      HeaderAnywhere(c.segments, 32 + c.commandBytes);
      EndsOfSorted(c.segments, low, high);
      if c.pageZeroEnd.Some? {
        PageZeroAnywhere(c.segments, c.pageZeroEnd.value, low);
      }
      CopiedSmall(c);
      EndsOrdered(c, low, high);
      RoundDownExact(low, base);
      AlignUpExact(high, end);
    }
  }

  lemma FittingNonempty(c: Companion)
    requires forall k :: 0 <= k < |c.segments| ==> PieceFits(c.source, c.segments[k])
    ensures forall k :: 0 <= k < |c.segments| ==> c.segments[k].vmsize > 0
  {
  }

  lemma EndsOrdered(c: Companion, low: nat, high: nat)
    requires forall k :: 0 <= k < |c.segments| ==> PieceFits(c.source, c.segments[k])
    requires c.segments != [] && LowestAddress(c.segments, low) && HighestEnd(c.segments, high)
    ensures low < high < U64_LIMIT
  {
  }

  /** A laid-out image stages like a collection. */
  lemma ImageLaid(image: Image)
    requires ImageOk(image)
    ensures forall k :: 0 <= k < |image.segments| ==> image.virtualBase <= image.segments[k].vmaddr
    ensures A.Laid(image.source, PlanOf(image)) && A.SourceOk(image.source, PlanOf(image).segments)
  {
    forall k | 0 <= k < |image.segments| ensures PieceOk(image, image.segments[k]) {
    }
    var p := PlanOf(image);
    forall k | 0 <= k < |p.segments| ensures S.StagedOk(image.source, p.arenaSize, p.segments[k]) {
      assert p.segments[k] == PieceForm(image, k) && PieceOk(image, image.segments[k]);
    }
    forall k | 0 <= k < |p.segments| - 1 ensures p.segments[k].End() <= p.segments[k + 1].destination {
      assert p.segments[k] == PieceForm(image, k) && p.segments[k + 1] == PieceForm(image, k + 1);
      assert image.segments[k].End() <= image.segments[k + 1].vmaddr;
    }
    A.LaidSource(image.source, p);
  }

  /** The bytes of a placed image. */
  ghost function Bytes(image: Image): seq<byte>
    requires ImageOk(image)
  {
    ImageLaid(image);
    A.Expected(image.source, PlanOf(image))
  }

  /** At the offset of a linked address of a segment stands the segment's file byte, or zero after its file bytes. */
  lemma ImageByte(image: Image, k: nat, va: nat)
    requires ImageOk(image) && k < |image.segments| && image.segments[k].vmaddr <= va < image.segments[k].End()
    ensures image.virtualBase <= va < image.virtualBase + image.span && |Bytes(image)| == image.span
    ensures var s := image.segments[k];
            && (va - s.vmaddr < s.filesize ==> s.fileoff + (va - s.vmaddr) < |image.source|)
            && Bytes(image)[va - image.virtualBase] == if va - s.vmaddr < s.filesize then image.source[s.fileoff + (va - s.vmaddr)] else 0
  {
    ImageLaid(image);
    var p := PlanOf(image);
    assert PieceOk(image, image.segments[k]) && p.segments[k] == PieceForm(image, k);
    hide A.Laid, A.ByteAt, ImageOk;
    A.OwnedByte(image.source, p, k, va - image.virtualBase);
  }

  //////////////////////////////////////////////////////////////////////////////
  // Placement
  //////////////////////////////////////////////////////////////////////////////

  /** Where the two spans go: one after the other, from the first page after what is occupied. */
  function Place(sptm: Image, txm: Image, physicalBase: u64, occupiedEnd: u64, length: nat): Result<StartupPlacement, StartupError> {
    if !Fits64(physicalBase + length) then Err(AddressOverflow)
    else if occupiedEnd > physicalBase + length then Err(ArenaBounds)
    else
      var first :- AlignUp(if occupiedEnd > physicalBase then occupiedEnd else physicalBase);
      if !Fits64(first + sptm.span) then Err(AddressOverflow)
      else
        var second :- AlignUp(first + sptm.span);
        if !Fits64(second + txm.span) then Err(AddressOverflow)
        else if second + txm.span > physicalBase + length then Err(ArenaBounds)
        else
          Ok(StartupPlacement(Placement(first, sptm.virtualBase, sptm.span, sptm.copiedBytes),
                              Placement(second, txm.virtualBase, txm.span, txm.copiedBytes), second + txm.span))
  }

  /** The spans are whole pages of the arena, disjoint, and at or after the occupied end. */
  lemma PlaceHolds(sptm: Image, txm: Image, physicalBase: u64, occupiedEnd: u64, length: nat)
    requires Place(sptm, txm, physicalBase, occupiedEnd, length).Ok?
    ensures var p := Place(sptm, txm, physicalBase, occupiedEnd, length).value;
            && p.sptm.physicalBase % 0x4000 == 0 && p.txm.physicalBase % 0x4000 == 0
            && physicalBase <= p.sptm.physicalBase && occupiedEnd <= p.sptm.physicalBase
            && p.sptm.physicalBase + sptm.span <= p.txm.physicalBase
            && p.txm.physicalBase + txm.span == p.occupiedEnd <= physicalBase + length
            && p.sptm.bytes == sptm.span && p.txm.bytes == txm.span
            && p.sptm.virtualBase == sptm.virtualBase && p.txm.virtualBase == txm.virtualBase
  {
    hide AlignUp;
    var start: u64 := if occupiedEnd > physicalBase then occupiedEnd else physicalBase;
    var first := AlignUp(start).value;
    AlignFits(start);
    Aligned(start);
    AlignFits(first + sptm.span);
    Aligned(first + sptm.span);
  }

  /**
   The first image goes to the first page boundary after what is occupied and the start of the arena, the
   second to the first one after the first image; they are placed exactly when both are in the arena.
   */
  lemma PlaceExact(sptm: Image, txm: Image, physicalBase: u64, occupiedEnd: u64, length: nat, first: nat, second: nat)
    requires PageAfter(first, if occupiedEnd > physicalBase then occupiedEnd else physicalBase) && PageAfter(second, first + sptm.span)
    ensures var r := Place(sptm, txm, physicalBase, occupiedEnd, length);
            && (r.Ok? <==> physicalBase + length < U64_LIMIT && occupiedEnd <= physicalBase + length && second + txm.span <= physicalBase + length)
            && (r.Ok? ==>
                  r.value == StartupPlacement(Placement(first, sptm.virtualBase, sptm.span, sptm.copiedBytes),
                                              Placement(second, txm.virtualBase, txm.span, txm.copiedBytes), second + txm.span))
            && (r.Err? ==>
                  r.error == if physicalBase + length >= U64_LIMIT || (occupiedEnd <= physicalBase + length && second + txm.span >= U64_LIMIT)
                             then AddressOverflow else ArenaBounds)
  {
    hide AlignUp;
    var start: u64 := if occupiedEnd > physicalBase then occupiedEnd else physicalBase;
    AlignUpExact(start, first);
    if first + sptm.span < U64_LIMIT {
      AlignUpExact(first + sptm.span, second);
    }
  }

  function StageError(sptm: Companion, txm: Companion, physicalBase: u64, occupiedEnd: u64, length: nat): Result<StartupPlacement, StartupError> {
    var first :- Layout(sptm);
    var second :- Layout(txm);
    Place(first, second, physicalBase, occupiedEnd, length)
  }

  /** Copies one segment into the span at an offset of memory. */
  method CopyPiece(image: Image, k: nat, memory: array<byte>, offset: nat)
    requires ImageOk(image) && k < |image.segments| && offset + image.span <= memory.Length
    modifies memory
    ensures forall x: nat :: x < memory.Length ==>
              memory[x] == (var s := image.segments[k];
                            if offset + (s.vmaddr - image.virtualBase) <= x < offset + (s.vmaddr - image.virtualBase) + s.filesize
                            then image.source[s.fileoff + (x - offset - (s.vmaddr - image.virtualBase))] else old(memory[..])[x])
  {
    var s := image.segments[k];
    assert PieceOk(image, s);
    hide ImageOk;
    var start: nat := offset + (s.vmaddr - image.virtualBase);
    var d: nat := 0;
    while d < s.filesize
      invariant d <= s.filesize
      invariant forall x: nat :: x < memory.Length ==>
                  memory[x] == if start <= x < start + d then image.source[s.fileoff + (x - start)] else old(memory[..])[x]
    {
      memory[start + d] := image.source[s.fileoff + d];
      d := d + 1;
    }
  }

  /** `stage_image`: clears the span, copies the segments and reads the whole span back. */
  method StageImage(image: Image, memory: array<byte>, offset: nat) returns (r: Result<(), StartupError>)
    requires ImageOk(image) && offset + image.span <= memory.Length
    modifies memory
    ensures r.Ok? && |Bytes(image)| == image.span && memory[..] == Store(old(memory[..]), offset, Bytes(image))
  {
    ImageLaid(image);
    ghost var p := PlanOf(image);
    ghost var before := memory[..];
    hide ImageOk, A.Laid, A.ByteAt, A.SourceOk;
    forall x | offset <= x < offset + image.span {
      memory[x] := 0;
    }
    A.NothingCopied(image.source);
    var k: nat := 0;
    assert p.segments[..0] == [];
    while k < |image.segments|
      invariant k <= |image.segments| && A.SourceOk(image.source, p.segments[..k])
      invariant forall x: nat :: x < memory.Length ==>
                  memory[x] == if offset <= x < offset + image.span then A.ByteAt(image.source, p.segments[..k], x - offset) else before[x]
    {
      ghost var was := memory[..];
      CopyPiece(image, k, memory, offset);
      A.CopyStep(image.source, p.segments, k, 0);
      forall x: nat | x < memory.Length
        ensures memory[x] == if offset <= x < offset + image.span then A.ByteAt(image.source, p.segments[..k + 1], x - offset) else before[x]
      {
        CopiedPiece(image, k, offset, was, memory[..], before, x);
      }
      k := k + 1;
    }
    assert p.segments[..k] == p.segments;
    StoredBytes(image, before, memory[..], offset);
    var verified := A.VerifySegments(image.source, memory[offset..offset + image.span], PlanOf(image));
    assert verified.Ok?;
    return Ok(());
  }

  lemma CopiedPiece(image: Image, k: nat, offset: nat, was: seq<byte>, now: seq<byte>, before: seq<byte>, x: nat)
    requires ImageOk(image) && k < |image.segments| && x < |was| == |now| == |before| && offset + image.span <= |was|
    requires forall j :: 0 <= j < |image.segments| ==> image.virtualBase <= image.segments[j].vmaddr
    requires A.SourceOk(image.source, PlanOf(image).segments) && A.SourceOk(image.source, PlanOf(image).segments[..k]) && A.SourceOk(image.source, PlanOf(image).segments[..k + 1])
    requires was[x] == if offset <= x < offset + image.span then A.ByteAt(image.source, PlanOf(image).segments[..k], x - offset) else before[x]
    requires image.segments[k].fileoff + image.segments[k].filesize <= |image.source| ==>
             now[x] == (var s := image.segments[k];
                        if offset + (s.vmaddr - image.virtualBase) <= x < offset + (s.vmaddr - image.virtualBase) + s.filesize
                        then image.source[s.fileoff + (x - offset - (s.vmaddr - image.virtualBase))] else was[x])
    ensures now[x] == if offset <= x < offset + image.span then A.ByteAt(image.source, PlanOf(image).segments[..k + 1], x - offset) else before[x]
  {
    assert PieceOk(image, image.segments[k]);
    assert PlanOf(image).segments[k] == PieceForm(image, k);
    hide A.ByteAt, ImageOk, A.SourceOk;
    if offset <= x {
      A.CopyStep(image.source, PlanOf(image).segments, k, x - offset);
    }
  }

  lemma StoredBytes(image: Image, before: seq<byte>, now: seq<byte>, offset: nat)
    requires ImageOk(image) && |before| == |now| && offset + image.span <= |now|
    requires forall j :: 0 <= j < |image.segments| ==> image.virtualBase <= image.segments[j].vmaddr
    requires A.SourceOk(image.source, PlanOf(image).segments)
    requires forall x: nat :: x < |now| ==> now[x] == if offset <= x < offset + image.span then A.ByteAt(image.source, PlanOf(image).segments, x - offset) else before[x]
    ensures |Bytes(image)| == image.span && now == Store(before, offset, Bytes(image)) && now[offset..offset + image.span] == Bytes(image)
  {
    hide A.ByteAt, A.SourceOk;
  }

  /**
   `stage_startup_images`: everything is checked before the first byte is written, so a refusal leaves
   memory as it was; otherwise the two spans hold the two images and nothing else changes.
   */
  method StageStartupImages(sptm: Companion, txm: Companion, physicalBase: u64, occupiedEnd: u64, memory: array<byte>)
    returns (r: Result<StartupPlacement, StartupError>)
    modifies memory
    ensures r == StageError(sptm, txm, physicalBase, occupiedEnd, memory.Length)
    ensures r.Err? ==> memory[..] == old(memory[..])
    ensures r.Ok? ==> Staged(Layout(sptm), Layout(txm), r.value, physicalBase, old(memory[..]), memory[..])
  {
    hide Layout, ImageOk, Bytes;
    var first := Layout(sptm);
    if first.Err? {
      return Err(first.error);
    }
    var second := Layout(txm);
    if second.Err? {
      return Err(second.error);
    }
    var placed := Place(first.value, second.value, physicalBase, occupiedEnd, memory.Length);
    if placed.Err? {
      return Err(placed.error);
    }
    LayoutHolds(sptm);
    LayoutHolds(txm);
    PlaceHolds(first.value, second.value, physicalBase, occupiedEnd, memory.Length);
    var done := StageImage(first.value, memory, placed.value.sptm.physicalBase - physicalBase);
    assert done.Ok?;
    done := StageImage(second.value, memory, placed.value.txm.physicalBase - physicalBase);
    assert done.Ok?;
    return Ok(placed.value);
  }

  /** Memory after staging: the old memory with the two images stored at their placements. */
  ghost predicate Staged(first: Result<Image, StartupError>, second: Result<Image, StartupError>, p: StartupPlacement, physicalBase: u64, before: seq<byte>, after: seq<byte>) {
    && first.Ok? && second.Ok? && ImageOk(first.value) && ImageOk(second.value)
    && physicalBase <= p.sptm.physicalBase && p.sptm.physicalBase - physicalBase + |Bytes(first.value)| <= |before|
    && physicalBase <= p.txm.physicalBase && p.txm.physicalBase - physicalBase + |Bytes(second.value)| <= |before|
    && after == Store(Store(before, p.sptm.physicalBase - physicalBase, Bytes(first.value)), p.txm.physicalBase - physicalBase, Bytes(second.value))
  }

  //////////////////////////////////////////////////////////////////////////////
  // Reading a placed image through its page tables
  //////////////////////////////////////////////////////////////////////////////

  function AliasOf(p: Placement): P.Alias
    requires p.bytes < U64_LIMIT
  {
    P.Alias(p.virtualBase, p.physicalBase, p.bytes)
  }

  /** A linked address translates to memory that holds the segment's byte, or zero after its file bytes. */
  ghost predicate ReadsAt(tables: seq<byte>, tableBase: nat, physicalBase: nat, memory: seq<byte>, image: Image, s: Piece, va: u64) {
    && T.Translation(tables, tableBase, va).Some?
    && var pa := T.Translation(tables, tableBase, va).value;
       && physicalBase <= pa < physicalBase + |memory|
       && (va - s.vmaddr < s.filesize ==> 0 <= s.fileoff + (va - s.vmaddr) < |image.source|)
       && memory[pa - physicalBase] == if va - s.vmaddr < s.filesize then image.source[s.fileoff + (va - s.vmaddr)] else 0
  }

  /** The span of a placement holds an image. */
  ghost predicate HoldsImage(memory: seq<byte>, physicalBase: nat, p: Placement, image: Image) {
    && ImageOk(image) && |Bytes(image)| == image.span == p.bytes < U64_LIMIT && p.virtualBase == image.virtualBase
    && physicalBase <= p.physicalBase && p.physicalBase - physicalBase + image.span <= |memory|
    && memory[p.physicalBase - physicalBase..p.physicalBase - physicalBase + image.span] == Bytes(image)
  }

  lemma HeldByte(memory: seq<byte>, physicalBase: nat, p: Placement, image: Image, k: nat, va: u64)
    requires HoldsImage(memory, physicalBase, p, image)
    requires k < |image.segments| && image.segments[k].vmaddr <= va < image.segments[k].End()
    ensures p.virtualBase <= va < p.virtualBase + p.bytes < p.virtualBase + U64_LIMIT && physicalBase <= p.physicalBase
    ensures p.physicalBase + (va - p.virtualBase) < physicalBase + |memory|
    ensures var s := image.segments[k];
            && (va - s.vmaddr < s.filesize ==> 0 <= s.fileoff + (va - s.vmaddr) < |image.source|)
            && memory[p.physicalBase + (va - p.virtualBase) - physicalBase] == if va - s.vmaddr < s.filesize then image.source[s.fileoff + (va - s.vmaddr)] else 0
  {
    hide ImageOk, Bytes;
    ImageByte(image, k, va);
    var from := p.physicalBase - physicalBase;
    assert memory[from..from + image.span][va - image.virtualBase] == Bytes(image)[va - image.virtualBase];
  }

  /** An image in memory, seen through an alias of its placement. */
  lemma SpanReads(tables: seq<byte>, physicalBase: u64, virtualBase: u64, memory: seq<byte>, aliases: seq<P.Alias>, i: nat, p: Placement, image: Image, k: nat, va: u64)
    requires |memory| < U64_LIMIT && T.AliasesError(physicalBase, virtualBase, |memory|, aliases).None? && i < |aliases|
    requires T.Translates(tables, physicalBase, virtualBase, |memory|, aliases)
    requires HoldsImage(memory, physicalBase, p, image) && p.bytes < U64_LIMIT && aliases[i] == AliasOf(p)
    requires k < |image.segments| && image.segments[k].vmaddr <= va < image.segments[k].End()
    ensures ReadsAt(tables, physicalBase + |memory|, physicalBase, memory, image, image.segments[k], va)
  {
    hide HoldsImage, ImageOk, Bytes, T.Translates, T.Translation, T.Target, T.AliasesError, T.AliasTarget;
    TranslatesAt(tables, physicalBase, virtualBase, |memory|, aliases, va);
    HeldByte(memory, physicalBase, p, image, k, va);
    T.AliasesDisjoint(physicalBase, virtualBase, |memory|, aliases, i, va);
  }

  lemma TranslatesAt(tables: seq<byte>, physicalBase: u64, virtualBase: u64, memorySize: u64, aliases: seq<P.Alias>, va: u64)
    requires T.Translates(tables, physicalBase, virtualBase, memorySize, aliases)
    ensures T.Translation(tables, physicalBase + memorySize, va) == T.Target(physicalBase, virtualBase, memorySize, aliases, va)
  {
    hide T.Translation, T.Target;
  }

  /** Both spans hold their images after staging. */
  lemma SpansHold(sptm: Companion, txm: Companion, physicalBase: u64, occupiedEnd: u64, before: seq<byte>, after: seq<byte>)
    requires StageError(sptm, txm, physicalBase, occupiedEnd, |before|).Ok?
    requires Staged(Layout(sptm), Layout(txm), StageError(sptm, txm, physicalBase, occupiedEnd, |before|).value, physicalBase, before, after)
    ensures |after| == |before| && Layout(sptm).Ok? && Layout(txm).Ok?
    ensures HoldsImage(after, physicalBase, StageError(sptm, txm, physicalBase, occupiedEnd, |before|).value.sptm, Layout(sptm).value)
    ensures HoldsImage(after, physicalBase, StageError(sptm, txm, physicalBase, occupiedEnd, |before|).value.txm, Layout(txm).value)
  {
    hide *;
    var p := StageError(sptm, txm, physicalBase, occupiedEnd, |before|).value;
    PartsStaged(sptm, txm, physicalBase, occupiedEnd, before, after);
    var first, second := Layout(sptm).value, Layout(txm).value;
    PlaceHolds(first, second, physicalBase, occupiedEnd, |before|);
    BytesLength(first);
    BytesLength(second);
    TwoStores(before, p.sptm.physicalBase - physicalBase, Bytes(first), p.txm.physicalBase - physicalBase, Bytes(second));
    SpanHolds(after, physicalBase, p.sptm, first);
    SpanHolds(after, physicalBase, p.txm, second);
  }

  lemma PartsStaged(sptm: Companion, txm: Companion, physicalBase: u64, occupiedEnd: u64, before: seq<byte>, after: seq<byte>)
    requires StageError(sptm, txm, physicalBase, occupiedEnd, |before|).Ok?
    requires Staged(Layout(sptm), Layout(txm), StageError(sptm, txm, physicalBase, occupiedEnd, |before|).value, physicalBase, before, after)
    ensures Layout(sptm).Ok? && Layout(txm).Ok? && ImageOk(Layout(sptm).value) && ImageOk(Layout(txm).value)
    ensures var p := StageError(sptm, txm, physicalBase, occupiedEnd, |before|).value;
            && Place(Layout(sptm).value, Layout(txm).value, physicalBase, occupiedEnd, |before|) == Ok(p)
            && physicalBase <= p.sptm.physicalBase && p.sptm.physicalBase - physicalBase + |Bytes(Layout(sptm).value)| <= |before|
            && physicalBase <= p.txm.physicalBase && p.txm.physicalBase - physicalBase + |Bytes(Layout(txm).value)| <= |before|
            && after == Store(Store(before, p.sptm.physicalBase - physicalBase, Bytes(Layout(sptm).value)), p.txm.physicalBase - physicalBase, Bytes(Layout(txm).value))
  {
    hide Layout, ImageOk, Bytes, Place, Store;
  }

  lemma SpanHolds(memory: seq<byte>, physicalBase: nat, p: Placement, image: Image)
    requires ImageOk(image) && |Bytes(image)| == image.span == p.bytes <= 0x800_0000 && p.virtualBase == image.virtualBase
    requires physicalBase <= p.physicalBase && p.physicalBase - physicalBase + image.span <= |memory|
    requires memory[p.physicalBase - physicalBase..p.physicalBase - physicalBase + image.span] == Bytes(image)
    ensures HoldsImage(memory, physicalBase, p, image)
  {
    hide ImageOk, Bytes;
  }

  lemma TwoStores(before: seq<byte>, at: nat, a: seq<byte>, to: nat, b: seq<byte>)
    requires at + |a| <= to && to + |b| <= |before|
    ensures var after := Store(Store(before, at, a), to, b);
            |after| == |before| && after[at..at + |a|] == a && after[to..to + |b|] == b
  {
  }

  lemma BytesLength(image: Image)
    requires ImageOk(image)
    ensures |Bytes(image)| == image.span <= 0x800_0000
  {
    ImageLaid(image);
  }

  /**
   End to end: stage the two companions, build tables whose aliases are the returned placements, and
   every linked address of every segment reads that segment's file byte, or zero.
   */
  lemma StagedImagesRead(sptm: Companion, txm: Companion, physicalBase: u64, occupiedEnd: u64, before: seq<byte>, after: seq<byte>,
                         virtualBase: u64, tables: seq<byte>, aliases: seq<P.Alias>, isTxm: bool, k: nat, va: u64)
    requires StageError(sptm, txm, physicalBase, occupiedEnd, |before|).Ok? && |before| < U64_LIMIT
    requires Staged(Layout(sptm), Layout(txm), StageError(sptm, txm, physicalBase, occupiedEnd, |before|).value, physicalBase, before, after)
    requires var p := StageError(sptm, txm, physicalBase, occupiedEnd, |before|).value;
             p.sptm.bytes < U64_LIMIT && p.txm.bytes < U64_LIMIT && aliases == [AliasOf(p.sptm), AliasOf(p.txm)]
    requires T.AliasesError(physicalBase, virtualBase, |before|, aliases).None? && T.Translates(tables, physicalBase, virtualBase, |before|, aliases)
    requires var image := if isTxm then Layout(txm).value else Layout(sptm).value;
             k < |image.segments| && image.segments[k].vmaddr <= va < image.segments[k].End()
    ensures var image := if isTxm then Layout(txm).value else Layout(sptm).value;
            |after| == |before| && ReadsAt(tables, physicalBase + |before|, physicalBase, after, image, image.segments[k], va)
  {
    hide *;
    SpansHold(sptm, txm, physicalBase, occupiedEnd, before, after);
    var p := StageError(sptm, txm, physicalBase, occupiedEnd, |before|).value;
    if isTxm {
      SpanReads(tables, physicalBase, virtualBase, after, aliases, 1, p.txm, Layout(txm).value, k, va);
    } else {
      SpanReads(tables, physicalBase, virtualBase, after, aliases, 0, p.sptm, Layout(sptm).value, k, va);
    }
  }
}
