/**
 The EFI jumpstart of an APFS container: the Fletcher check words that close a block, the checks of the
 metadata, and the loop that concatenates extents up to the length of the file.
 */
module Jumpstart {
  import opened Wrappers
  import opened Words
  import C = Collection

  const MIN_CONTAINER_BYTES: nat := 0x10_0000

  datatype JumpstartError =
    | OutOfBounds
    | ArithmeticOverflow
    | InvalidLimits
    | InvalidBlockSize(size: u32)
    | InvalidContainerSize
    | BadMagic(jumpstart: bool)
    | BadChecksum(jumpstart: bool)
    | InvalidObject(jumpstart: bool)
    | UnsupportedFusion
    | UnsupportedFeatures(features: u64)
    | NoJumpstart
    | NegativeAddress
    | UnsupportedVersion(version: u32)
    | InvalidFileLength
    | DriverTooLarge
    | InvalidExtentCount
    | TooManyExtents
    | ExtentTableOutOfBounds
    | EmptyExtent
    | InsufficientExtentCapacity

  datatype Limits = Limits(maxDriverBytes: nat, maxExtents: nat)

  datatype Extent = Extent(start: u64, count: u64)

  datatype Metadata = Metadata(blockSize: nat, blockCount: u64, jumpstartBlock: u64, fileLength: u32, extents: seq<Extent>)

  //////////////////////////////////////////////////////////////////////////////
  // The Fletcher check words
  //////////////////////////////////////////////////////////////////////////////

  datatype Sums = Sums(sum: nat, prefixes: nat)

  function AddWord(s: Sums, v: nat): Sums {
    var sum := (s.sum + v) % 0xffff_ffff;
    Sums(sum, (s.prefixes + sum) % 0xffff_ffff)
  }

  /** The running sums over a list of words. */
  function SumsOf(words: seq<nat>): (r: Sums)
    ensures r.sum < 0xffff_ffff && r.prefixes < 0xffff_ffff
  {
    if words == [] then Sums(0, 0) else AddWord(SumsOf(words[..|words| - 1]), words[|words| - 1])
  }

  /** The first k 32-bit words of a byte string. */
  function WordsOf(bytes: seq<byte>, k: nat): (r: seq<nat>)
    requires 4 * k <= |bytes|
    ensures |r| == k
  {
    if k == 0 then [] else WordsOf(bytes, k - 1) + [C.U32(bytes, 4 * (k - 1))]
  }

  function LowCheck(s: Sums): nat {
    0xffff_ffff - (s.sum + s.prefixes) % 0xffff_ffff
  }

  function HighCheck(s: Sums): nat {
    0xffff_ffff - (s.sum + LowCheck(s)) % 0xffff_ffff
  }

  /** `fletcher64_checksum`: over everything after the first eight bytes. */
  function Checksum(block: seq<byte>): Option<u64> {
    if |block| < 8 || |block| % 4 != 0 then None
    else
      var s := SumsOf(WordsOf(block[8..], (|block| - 8) / 4));
      CheckWordsJoin(LowCheck(s), HighCheck(s));
      Some(BitOr(HighCheck(s) * 0x1_0000_0000, LowCheck(s)))
  }

  /** `(high << 32) | low` holds both words apart. */
  lemma CheckWordsJoin(low: nat, high: nat)
    requires low < U32_LIMIT && high < U32_LIMIT
    ensures BitOr(high * 0x1_0000_0000, low) == high * 0x1_0000_0000 + low < U64_LIMIT
  {
    Pow2Word();
    hide Pow2, BitOr;
    DivModUnique(high * 0x1_0000_0000, 0x1_0000_0000, high, 0);
    OrAligned(high * 0x1_0000_0000, low, 32);
  }

  lemma ModAdd(a: nat, b: nat)
    ensures (a % 0xffff_ffff + b) % 0xffff_ffff == (a + b) % 0xffff_ffff
  {
    var q, r := a / 0xffff_ffff, (a % 0xffff_ffff + b) % 0xffff_ffff;
    var k := (a % 0xffff_ffff + b) / 0xffff_ffff;
    DivModUnique(a + b, 0xffff_ffff, q + k, r);
  }

  lemma Complement(x: nat)
    ensures (x + (0xffff_ffff - x % 0xffff_ffff)) % 0xffff_ffff == 0
  {
    DivModUnique(x + (0xffff_ffff - x % 0xffff_ffff), 0xffff_ffff, x / 0xffff_ffff + 1, 0);
  }

  /** One word more. */
  lemma SumsSnoc(words: seq<nat>, v: nat)
    ensures SumsOf(words + [v]) == AddWord(SumsOf(words), v)
  {
    assert (words + [v])[..|words|] == words;
  }

  lemma CloseLow(sum: nat, prefixes: nat, low: nat)
    requires low == 0xffff_ffff - (sum + prefixes) % 0xffff_ffff
    ensures (prefixes + (sum + low) % 0xffff_ffff) % 0xffff_ffff == 0
  {
    Complement(sum + prefixes);
    ModAdd(sum + low, prefixes);
  }

  lemma CloseHigh(sum: nat, low: nat, high: nat)
    requires high == 0xffff_ffff - (sum + low) % 0xffff_ffff
    ensures ((sum + low) % 0xffff_ffff + high) % 0xffff_ffff == 0
  {
    Complement(sum + low);
    ModAdd(sum + low, high);
  }

  /** Appending the low and then the high check word drives both sums to zero, whatever came before. */
  lemma ChecksumCloses(words: seq<nat>)
    ensures SumsOf(words + [LowCheck(SumsOf(words)), HighCheck(SumsOf(words))]) == Sums(0, 0)
  {
    hide SumsOf, AddWord;
    var s := SumsOf(words);
    var low, high := LowCheck(s), HighCheck(s);
    TwoWords(words, low, high);
    CloseLow(s.sum, s.prefixes, low);
    CloseHigh(s.sum, low, high);
    Closed(s, low, high);
  }

  lemma TwoWords(words: seq<nat>, low: nat, high: nat)
    ensures SumsOf(words + [low, high]) == AddWord(AddWord(SumsOf(words), low), high)
  {
    hide SumsOf, AddWord;
    SumsSnoc(words, low);
    SumsSnoc(words + [low], high);
    assert words + [low] + [high] == words + [low, high];
  }

  lemma Closed(s: Sums, low: nat, high: nat)
    ensures AddWord(AddWord(s, low), high) == Sums(0, 0) <==>
              (s.prefixes + (s.sum + low) % 0xffff_ffff) % 0xffff_ffff == 0 && ((s.sum + low) % 0xffff_ffff + high) % 0xffff_ffff == 0
  {
    var t := AddWord(s, low);
    var sum := (t.sum + high) % 0xffff_ffff;
    if sum == 0 {
      ModSmall(t.prefixes);
    }
  }

  lemma ModSmall(x: nat)
    ensures (x + 0) % 0xffff_ffff == x % 0xffff_ffff
    ensures x < 0xffff_ffff ==> x % 0xffff_ffff == x
  {
  }

  /** Two check words close the sums exactly when they are the computed ones, apart from zero standing for 2^32-1. */
  lemma OnlyCheckWordsClose(words: seq<nat>, low: nat, high: nat)
    requires 1 <= low <= 0xffff_ffff && 1 <= high <= 0xffff_ffff
    ensures SumsOf(words + [low, high]) == Sums(0, 0) <==> low == LowCheck(SumsOf(words)) && high == HighCheck(SumsOf(words))
  {
    hide SumsOf;
    ChecksumCloses(words);
    var s := SumsOf(words);
    TwoWords(words, low, high);
    Closed(s, low, high);
    if SumsOf(words + [low, high]) == Sums(0, 0) {
      ModAdd(s.sum + low, s.prefixes);
      ModAdd(s.sum + low, high);
      Opposite(s.sum + s.prefixes, low);
      Opposite(s.sum + low, high);
    }
  }

  lemma Opposite(x: nat, y: nat)
    requires (x + y) % 0xffff_ffff == 0 && 1 <= y <= 0xffff_ffff
    ensures y == 0xffff_ffff - x % 0xffff_ffff
  {
    ModAdd(x, y);
    var r := x % 0xffff_ffff;
    assert (r + y) % 0xffff_ffff == 0;
    assert 0 < r + y < 2 * 0xffff_ffff;
  }

  /** Equal check words mean equal sums. */
  lemma ChecksDetermineSums(s: Sums, t: Sums)
    requires s.sum < 0xffff_ffff && s.prefixes < 0xffff_ffff && t.sum < 0xffff_ffff && t.prefixes < 0xffff_ffff
    requires LowCheck(s) == LowCheck(t) && HighCheck(s) == HighCheck(t)
    ensures s == t
  {
    SameRemainder(s.sum, t.sum, LowCheck(s));
    SameRemainder(s.prefixes, t.prefixes, s.sum);
  }

  lemma SameRemainder(a: nat, b: nat, c: nat)
    requires a < 0xffff_ffff && b < 0xffff_ffff && (a + c) % 0xffff_ffff == (b + c) % 0xffff_ffff
    ensures a == b
  {
    var q, p := (a + c) / 0xffff_ffff, (b + c) / 0xffff_ffff;
    assert a - b == (q - p) * 0xffff_ffff;
    MulGap(q - p, 0xffff_ffff);
  }

  lemma {:induction false} SumIsTotal(words: seq<nat>)
    ensures SumsOf(words).sum == Total(words) % 0xffff_ffff
  {
    if words != [] {
      SumIsTotal(words[..|words| - 1]);
      ModAdd(Total(words[..|words| - 1]), words[|words| - 1]);
    }
  }

  function Total(words: seq<nat>): nat {
    if words == [] then 0 else Total(words[..|words| - 1]) + words[|words| - 1]
  }

  lemma {:induction false} TotalUpdate(words: seq<nat>, k: nat, v: nat)
    requires k < |words|
    ensures Total(words[k := v]) + words[k] == Total(words) + v
  {
    var n := |words| - 1;
    if k == n {
      assert words[k := v][..n] == words[..n];
    } else {
      TotalUpdate(words[..n], k, v);
      assert words[k := v][..n] == words[..n][k := v];
    }
  }

  /** A change of one word that is not a change by 2^32-1 changes the check words. */
  lemma OneWordDetected(words: seq<nat>, k: nat, v: nat)
    requires k < |words| && v % 0xffff_ffff != words[k] % 0xffff_ffff
    ensures var (s, t) := (SumsOf(words), SumsOf(words[k := v])); LowCheck(s) != LowCheck(t) || HighCheck(s) != HighCheck(t)
  {
    hide SumsOf, Total, LowCheck, HighCheck;
    var s, t := SumsOf(words), SumsOf(words[k := v]);
    SumIsTotal(words);
    SumIsTotal(words[k := v]);
    TotalUpdate(words, k, v);
    if LowCheck(s) == LowCheck(t) && HighCheck(s) == HighCheck(t) {
      ChecksDetermineSums(s, t);
      var a, b := Total(words), Total(words[k := v]);
      ModAdd(a, v);
      ModAdd(b, words[k]);
      ModAdd(a, words[k]);
      SameTotals(a % 0xffff_ffff, v, words[k]);
    }
  }

  lemma SameTotals(a: nat, v: nat, w: nat)
    requires (a + v) % 0xffff_ffff == (a + w) % 0xffff_ffff
    ensures v % 0xffff_ffff == w % 0xffff_ffff
  {
    ModAdd(v, a);
    ModAdd(w, a);
    SameRemainder(v % 0xffff_ffff, w % 0xffff_ffff, a);
  }

  lemma {:induction false} LeAppend(a: seq<byte>, b: seq<byte>)
    ensures Le(a + b) == Le(a) + Pow2(8 * |a|) * Le(b)
  {
    if a == [] {
      assert a + b == b;
      assert Pow2(0) == 1;
    } else {
      LeAppend(a[1..], b);
      assert (a + b)[1..] == a[1..] + b;
      Pow2Add(8, 8 * (|a| - 1));
      assert Pow2(8) == 256;
      assert 256 * (Pow2(8 * (|a| - 1)) * Le(b)) == 256 * Pow2(8 * (|a| - 1)) * Le(b);
    }
  }

  /** The stored check value is its low word and its high word. */
  lemma StoredWords(block: seq<byte>)
    requires |block| >= 8
    ensures C.U64(block, 0) == C.U32(block, 4) * 0x1_0000_0000 + C.U32(block, 0)
  {
    Pow2Word();
    LeAppend(block[0..4], block[4..8]);
    assert block[0..8] == block[0..4] + block[4..8];
    hide Le, Pow2;
  }

  /**
   A block passes its checksum exactly when appending its stored check words, low then high, to the rest
   of the block drives both sums to zero, and neither stored word is zero.
   */
  lemma ChecksumExact(block: seq<byte>)
    requires |block| >= 8 && |block| % 4 == 0
    ensures Checksum(block) == Some(C.U64(block, 0)) <==>
              (SumsOf(WordsOf(block[8..], (|block| - 8) / 4) + [C.U32(block, 0), C.U32(block, 4)]) == Sums(0, 0) &&
               C.U32(block, 0) != 0 && C.U32(block, 4) != 0)
  {
    var words := WordsOf(block[8..], (|block| - 8) / 4);
    var s, low, high := SumsOf(words), C.U32(block, 0), C.U32(block, 4);
    StoredWords(block);
    ChecksumIs(block);
    hide SumsOf, WordsOf, C.U32, C.U64, Checksum;
    CheckRange(s);
    HalvesDetermine(LowCheck(s), HighCheck(s), low, high);
    if low != 0 && high != 0 {
      OnlyCheckWordsClose(words, low, high);
    }
  }

  lemma ChecksumIs(block: seq<byte>)
    requires |block| >= 8 && |block| % 4 == 0
    ensures var s := SumsOf(WordsOf(block[8..], (|block| - 8) / 4));
            Checksum(block) == Some(HighCheck(s) * 0x1_0000_0000 + LowCheck(s))
  {
    hide SumsOf, WordsOf, BitOr;
    var s := SumsOf(WordsOf(block[8..], (|block| - 8) / 4));
    CheckWordsJoin(LowCheck(s), HighCheck(s));
  }

  lemma CheckRange(s: Sums)
    ensures 1 <= LowCheck(s) <= 0xffff_ffff && 1 <= HighCheck(s) <= 0xffff_ffff
  {
  }

  lemma HalvesDetermine(a: nat, b: nat, low: nat, high: nat)
    requires a < U32_LIMIT && low < U32_LIMIT
    ensures b * 0x1_0000_0000 + a == high * 0x1_0000_0000 + low <==> b == high && a == low
  {
    if b * 0x1_0000_0000 + a == high * 0x1_0000_0000 + low {
      DivModUnique(high * 0x1_0000_0000 + low, 0x1_0000_0000, high, low);
      DivModUnique(b * 0x1_0000_0000 + a, 0x1_0000_0000, b, a);
    }
  }

  /** The loop of `fletcher64_checksum`. */
  method Fletcher64(block: seq<byte>) returns (r: Option<u64>)
    ensures r == Checksum(block)
  {
    hide C.U32, SumsOf, WordsOf, BitOr;
    NoWords(block);
    if |block| < 8 || |block| % 4 != 0 {
      return None;
    }
    var body := block[8..];
    var sum: nat, prefixes: nat := 0, 0;
    var k: nat := 0;
    while k < |body| / 4
      invariant k <= |body| / 4
      invariant Sums(sum, prefixes) == SumsOf(WordsOf(body, k)) && sum < 0xffff_ffff && prefixes < 0xffff_ffff
    {
      var value := C.U32(body, 4 * k);
      SumsSnoc(WordsOf(body, k), value);
      WordsStep(body, k);
      sum := (sum + value) % 0xffff_ffff;
      prefixes := (prefixes + sum) % 0xffff_ffff;
      k := k + 1;
    }
    assert |body| / 4 == (|block| - 8) / 4;
    var low := 0xffff_ffff - (sum + prefixes) % 0xffff_ffff;
    var high := 0xffff_ffff - (sum + low) % 0xffff_ffff;
    CheckWordsJoin(low, high);
    return Some(BitOr(high * 0x1_0000_0000, low));
  }

  lemma NoWords(block: seq<byte>)
    ensures |block| >= 8 ==> SumsOf(WordsOf(block[8..], 0)) == Sums(0, 0)
  {
  }

  lemma WordsStep(bytes: seq<byte>, k: nat)
    requires 4 * (k + 1) <= |bytes|
    ensures WordsOf(bytes, k + 1) == WordsOf(bytes, k) + [C.U32(bytes, 4 * k)]
  {
    hide C.U32;
  }

  //////////////////////////////////////////////////////////////////////////////
  // Metadata
  //////////////////////////////////////////////////////////////////////////////

  predicate BlockSizeOk(size: u32) {
    size == 4096 || size == 8192 || size == 16384 || size == 32768 || size == 65536
  }

  function PositiveAddress(raw: u64): Result<u64, JumpstartError> {
    if raw >= 0x8000_0000_0000_0000 then Err(NegativeAddress) else Ok(raw)
  }

  /** `block_range`: the byte offset of a range of blocks inside the container. */
  function BlockRange(start: u64, count: u64, blockCount: u64, blockSize: nat): Result<nat, JumpstartError> {
    if !Fits64(start + count) then Err(ArithmeticOverflow)
    else if start + count > blockCount then Err(OutOfBounds)
    else if !Fits64(start * blockSize) then Err(ArithmeticOverflow)
    else Ok(start * blockSize)
  }

  /** `read_bounded`, over a partition whose bytes do not change. */
  function ReadBounded(partition: seq<byte>, limit: nat, offset: nat, size: nat): Result<seq<byte>, JumpstartError>
    requires limit <= |partition|
  {
    if !Fits64(offset + size) then Err(ArithmeticOverflow)
    else if offset + size > limit then Err(OutOfBounds)
    else Ok(partition[offset..offset + size])
  }

  /** `check_object`. */
  function ObjectError(block: seq<byte>, magic: u32, kind: u32, jumpstart: bool, oid: Option<u64>): Option<JumpstartError>
    requires |block| >= 40
  {
    var storage := C.U32(block, 24) / 0x4000_0000;
    if Checksum(block) != Some(C.U64(block, 0)) then Some(BadChecksum(jumpstart))
    else if C.U32(block, 32) != magic then Some(BadMagic(jumpstart))
    else if C.U32(block, 24) % 0x1_0000 != kind || (C.U32(block, 24) / 0x1_0000) % 0x4000 != 0 || storage == 3 || C.U32(block, 28) != 0
         || C.U64(block, 16) == 0 || (oid.Some? && (storage != 1 || C.U64(block, 8) != oid.value))
      then Some(InvalidObject(jumpstart))
    else None
  }

  predicate AllZero(b: seq<byte>) {
    forall i :: 0 <= i < |b| ==> b[i] == 0
  }

  /** The superblock: the number of blocks and the address of the jumpstart record. */
  function Superblock(block: seq<byte>, partitionLength: nat): Result<Extent, JumpstartError>
    requires |block| >= 4096
  {
    var blockCount := C.U64(block, 40);
    if ObjectError(block, 0x4253_584e, 1, false, None).Some? then Err(ObjectError(block, 0x4253_584e, 1, false, None).value)
    else if !Fits64(blockCount * |block|) then Err(ArithmeticOverflow)
    else if blockCount * |block| < MIN_CONTAINER_BYTES then Err(InvalidContainerSize)
    else if blockCount * |block| > partitionLength then Err(OutOfBounds)
    else if (C.U64(block, 64) / 0x100) % 2 == 1 || (C.U64(block, 48) / 2) % 2 == 1 || !AllZero(block[1280..1296]) || !AllZero(block[1352..1384])
      then Err(UnsupportedFusion)
    else if C.U64(block, 64) != 2 then Err(UnsupportedFeatures(C.U64(block, 64)))
    else
      var address :- PositiveAddress(C.U64(block, 1272));
      if address == 0 then Err(NoJumpstart)
      else
        var _ :- BlockRange(address, 1, blockCount, |block|);
        Ok(Extent(address, blockCount))
  }

  function ReadExtent(block: seq<byte>, at: nat, blockCount: u64): Result<Extent, JumpstartError>
    requires at + 16 <= |block|
  {
    var start :- PositiveAddress(C.U64(block, at));
    var count := C.U64(block, at + 8);
    if count == 0 then Err(EmptyExtent)
    else
      var _ :- BlockRange(start, count, blockCount, |block|);
      if !Fits64(count * |block|) then Err(ArithmeticOverflow) else Ok(Extent(start, count))
  }

  datatype Table = Table(extents: seq<Extent>, capacity: nat)

  /** The extent table from its k-th record on. */
  function ReadExtents(block: seq<byte>, count: nat, blockCount: u64, k: nat, done: Table): Result<Table, JumpstartError>
    requires k <= count && 176 + count * 16 <= |block|
    decreases count - k
  {
    if k == count then Ok(done)
    else
      var e :- ReadExtent(block, 176 + k * 16, blockCount);
      var capacity := done.capacity + e.count * |block|;
      if !Fits64(capacity) then Err(ArithmeticOverflow)
      else ReadExtents(block, count, blockCount, k + 1, Table(done.extents + [e], capacity))
  }

  /** The jumpstart record: the length of the file and its extents. */
  function Record(block: seq<byte>, address: u64, blockCount: u64, limits: Limits): Result<Metadata, JumpstartError>
    requires |block| >= 4096
  {
    var fileLength, count := C.U32(block, 40), C.U32(block, 44);
    if ObjectError(block, 0x5244_534a, 0x14, true, Some(address)).Some? then Err(ObjectError(block, 0x5244_534a, 0x14, true, Some(address)).value)
    else if C.U32(block, 36) != 1 then Err(UnsupportedVersion(C.U32(block, 36)))
    else if fileLength == 0 then Err(InvalidFileLength)
    else if fileLength > limits.maxDriverBytes then Err(DriverTooLarge)
    else if count == 0 then Err(InvalidExtentCount)
    else if count > limits.maxExtents then Err(TooManyExtents)
    else if 176 + count * 16 > |block| then Err(ExtentTableOutOfBounds)
    else
      var table :- ReadExtents(block, count, blockCount, 0, Table([], 0));
      if table.capacity < fileLength then Err(InsufficientExtentCapacity)
      else Ok(Metadata(|block|, blockCount, address, fileLength, table.extents))
  }

  /** Everything `extract_jumpstart` checks before it reads driver data. */
  function ReadMetadata(partition: seq<byte>, limits: Limits): Result<Metadata, JumpstartError> {
    if limits.maxDriverBytes == 0 || limits.maxExtents == 0 then Err(InvalidLimits)
    else
      var prefix :- ReadBounded(partition, |partition|, 0, 40);
      var blockSize := C.U32(prefix, 36);
      if !BlockSizeOk(blockSize) then Err(InvalidBlockSize(blockSize))
      else
        var block :- ReadBounded(partition, |partition|, 0, blockSize);
        var found :- Superblock(block, |partition|);
        SuperblockInside(block, |partition|);
        var record :- ReadBounded(partition, found.count * blockSize, found.start * blockSize, blockSize);
        Record(record, found.start, found.count, limits)
  }

  lemma SuperblockInside(block: seq<byte>, partitionLength: nat)
    requires |block| >= 4096 && Superblock(block, partitionLength).Ok?
    ensures Superblock(block, partitionLength).value.count * |block| <= partitionLength
  {
    hide ObjectError, C.U64, AllZero, BlockRange;
  }

  //////////////////////////////////////////////////////////////////////////////
  // The extents as one stream
  //////////////////////////////////////////////////////////////////////////////

  predicate BlockInside(partition: seq<byte>, size: nat, n: nat) {
    n * size + size <= |partition|
  }

  /** Block n of the partition, if it is there. */
  function BlockAt(partition: seq<byte>, size: nat, n: nat): (r: seq<byte>)
    ensures BlockInside(partition, size, n) ==> |r| == size
  {
    if BlockInside(partition, size, n) then partition[n * size..n * size + size] else []
  }

  /** The first k blocks of an extent. */
  function ExtentBytes(partition: seq<byte>, size: nat, start: nat, k: nat): seq<byte> {
    if k == 0 then [] else ExtentBytes(partition, size, start, k - 1) + BlockAt(partition, size, start + k - 1)
  }

  /** The listed extents, one after the other. */
  function Stream(partition: seq<byte>, size: nat, extents: seq<Extent>): seq<byte> {
    if extents == [] then []
    else Stream(partition, size, extents[..|extents| - 1]) + ExtentBytes(partition, size, extents[|extents| - 1].start, extents[|extents| - 1].count)
  }

  /** What the checks have established of the extents. */
  ghost predicate ExtentsOk(partition: seq<byte>, m: Metadata) {
    && m.blockSize >= 4096 && m.fileLength > 0 && m.blockCount * m.blockSize <= |partition| && Fits64(m.blockCount * m.blockSize)
    && (forall i :: 0 <= i < |m.extents| ==> m.extents[i].start + m.extents[i].count <= m.blockCount)
    && m.fileLength <= |Stream(partition, m.blockSize, m.extents)|
  }

  lemma BlockInContainer(partition: seq<byte>, size: nat, blockCount: nat, n: nat)
    requires n < blockCount && blockCount * size <= |partition|
    ensures BlockInside(partition, size, n) && n * size + size <= blockCount * size
  {
    MulMonotone(n + 1, blockCount, size);
    assert (n + 1) * size == n * size + size;
  }

  lemma {:induction false} ExtentLength(partition: seq<byte>, size: nat, blockCount: nat, start: nat, k: nat)
    requires start + k <= blockCount && blockCount * size <= |partition|
    ensures |ExtentBytes(partition, size, start, k)| == k * size
  {
    if k > 0 {
      ExtentLength(partition, size, blockCount, start, k - 1);
      BlockInContainer(partition, size, blockCount, start + k - 1);
      assert k * size == (k - 1) * size + size;
    }
  }

  lemma {:induction false} ExtentPrefix(partition: seq<byte>, size: nat, start: nat, j: nat, k: nat)
    requires j <= k
    ensures ExtentBytes(partition, size, start, j) <= ExtentBytes(partition, size, start, k)
  {
    hide BlockAt;
    if j < k {
      ExtentPrefix(partition, size, start, j, k - 1);
    }
  }

  lemma {:induction false} StreamPrefix(partition: seq<byte>, size: nat, extents: seq<Extent>, j: nat)
    requires j <= |extents|
    ensures Stream(partition, size, extents[..j]) <= Stream(partition, size, extents)
    decreases |extents|
  {
    hide ExtentBytes;
    if j < |extents| {
      var front := extents[..|extents| - 1];
      StreamPrefix(partition, size, front, j);
      assert front[..j] == extents[..j];
    } else {
      assert extents[..j] == extents;
    }
  }

  //////////////////////////////////////////////////////////////////////////////
  // What the checks establish
  //////////////////////////////////////////////////////////////////////////////

  ghost predicate TableOk(partition: seq<byte>, size: nat, blockCount: nat, t: Table) {
    && (forall i :: 0 <= i < |t.extents| ==> t.extents[i].start + t.extents[i].count <= blockCount)
    && t.capacity == |Stream(partition, size, t.extents)|
  }

  lemma ExtentAdded(partition: seq<byte>, size: nat, blockCount: nat, t: Table, e: Extent)
    requires TableOk(partition, size, blockCount, t) && e.start + e.count <= blockCount && blockCount * size <= |partition|
    ensures TableOk(partition, size, blockCount, Table(t.extents + [e], t.capacity + e.count * size))
  {
    ExtentLength(partition, size, blockCount, e.start, e.count);
    hide ExtentBytes;
    assert (t.extents + [e])[..|t.extents|] == t.extents;
  }

  lemma {:induction false} ExtentsChecked(partition: seq<byte>, block: seq<byte>, count: nat, blockCount: u64, k: nat, done: Table)
    requires k <= count && 176 + count * 16 <= |block| && ReadExtents(block, count, blockCount, k, done).Ok?
    requires TableOk(partition, |block|, blockCount, done) && blockCount * |block| <= |partition|
    ensures TableOk(partition, |block|, blockCount, ReadExtents(block, count, blockCount, k, done).value)
    decreases count - k
  {
    hide TableOk, ReadExtent;
    if k < count {
      var e := ReadExtent(block, 176 + k * 16, blockCount).value;
      ExtentInside(block, 176 + k * 16, blockCount);
      ExtentAdded(partition, |block|, blockCount, done, e);
      ExtentsChecked(partition, block, count, blockCount, k + 1, Table(done.extents + [e], done.capacity + e.count * |block|));
    }
  }

  lemma ExtentInside(block: seq<byte>, at: nat, blockCount: u64)
    requires at + 16 <= |block| && ReadExtent(block, at, blockCount).Ok?
    ensures ReadExtent(block, at, blockCount).value.start + ReadExtent(block, at, blockCount).value.count <= blockCount
  {
    hide C.U64;
  }

  lemma RecordChecked(partition: seq<byte>, block: seq<byte>, address: u64, blockCount: u64, limits: Limits)
    requires |block| >= 4096 && Record(block, address, blockCount, limits).Ok? && blockCount * |block| <= |partition| && Fits64(blockCount * |block|)
    ensures ExtentsOk(partition, Record(block, address, blockCount, limits).value)
    ensures Record(block, address, blockCount, limits).value.blockSize == |block|
  {
    hide ObjectError, C.U32, ReadExtents, Stream;
    NoExtents(partition, |block|, blockCount);
    ExtentsChecked(partition, block, C.U32(block, 44), blockCount, 0, Table([], 0));
  }

  lemma NoExtents(partition: seq<byte>, size: nat, blockCount: nat)
    ensures TableOk(partition, size, blockCount, Table([], 0))
  {
  }

  lemma SuperblockFits(block: seq<byte>, partitionLength: nat)
    requires |block| >= 4096 && Superblock(block, partitionLength).Ok?
    ensures Fits64(Superblock(block, partitionLength).value.count * |block|)
  {
    hide ObjectError, C.U64, AllZero, BlockRange;
  }

  /** Metadata that passes every check names extents inside the container with room for the file. */
  lemma MetadataChecked(partition: seq<byte>, limits: Limits)
    requires ReadMetadata(partition, limits).Ok?
    ensures ExtentsOk(partition, ReadMetadata(partition, limits).value)
    ensures ReadMetadata(partition, limits).value.fileLength <= limits.maxDriverBytes
  {
    hide Superblock, Record, C.U32, ExtentsOk;
    var prefix := ReadBounded(partition, |partition|, 0, 40).value;
    var block := ReadBounded(partition, |partition|, 0, C.U32(prefix, 36)).value;
    SuperblockInside(block, |partition|);
    SuperblockFits(block, |partition|);
    var found := Superblock(block, |partition|).value;
    var record := ReadBounded(partition, found.count * |block|, found.start * |block|, |block|).value;
    RecordChecked(partition, record, found.start, found.count, limits);
    RecordLimited(record, found.start, found.count, limits);
  }

  lemma RecordLimited(block: seq<byte>, address: u64, blockCount: u64, limits: Limits)
    requires |block| >= 4096 && Record(block, address, blockCount, limits).Ok?
    ensures Record(block, address, blockCount, limits).value.fileLength <= limits.maxDriverBytes
  {
    hide ObjectError, C.U32, ReadExtents;
  }

  //////////////////////////////////////////////////////////////////////////////
  // What the bytes of accepted metadata say
  //////////////////////////////////////////////////////////////////////////////

  /** The little-endian words of four and of eight bytes. */
  function WordAt(b: seq<byte>, at: nat): u32
    requires at + 4 <= |b|
  {
    Bounded(b, at);
    Le(b[at..at + 4])
  }

  function LongAt(b: seq<byte>, at: nat): u64
    requires at + 8 <= |b|
  {
    Bounded(b, at);
    Le(b[at..at + 8])
  }

  lemma Bounded(b: seq<byte>, at: nat)
    ensures at + 4 <= |b| ==> Le(b[at..at + 4]) < U32_LIMIT
    ensures at + 8 <= |b| ==> Le(b[at..at + 8]) < U64_LIMIT
  {
    Pow2Word();
    hide Pow2, Le;
    if at + 4 <= |b| {
      C.WordBound(b, at, 4);
    }
    if at + 8 <= |b| {
      C.WordBound(b, at, 8);
    }
  }

  /** The two leading words of a block are not zero, and close the sums over the words after them. */
  ghost predicate Sealed(block: seq<byte>)
    requires |block| >= 8 && |block| % 4 == 0
  {
    && WordAt(block, 0) != 0 && WordAt(block, 4) != 0
    && SumsOf(WordsOf(block[8..], (|block| - 8) / 4) + [WordAt(block, 0), WordAt(block, 4)]) == Sums(0, 0)
  }

  /** A sealed object with its magic, of a type without flags, in no reserved storage class, with no subtype and a transaction. */
  ghost predicate IsObject(block: seq<byte>, magic: nat, kind: nat)
    requires |block| >= 4096 && |block| % 4 == 0
  {
    && Sealed(block) && WordAt(block, 32) == magic
    && WordAt(block, 24) % 0x4000_0000 == kind && WordAt(block, 24) / 0x4000_0000 != 3
    && WordAt(block, 28) == 0 && LongAt(block, 16) != 0
  }

  /** The superblock counts the blocks of a container that is large enough and all there, uses no other feature than 2 and no fusion, and names the record. */
  ghost predicate IsSuperblock(block: seq<byte>, partitionLength: nat, record: Extent)
    requires |block| >= 4096 && |block| % 4 == 0
  {
    && IsObject(block, 0x4253_584e, 1)
    && record.count == LongAt(block, 40)
    && 0x10_0000 <= record.count * |block| <= partitionLength && record.count * |block| < U64_LIMIT
    && LongAt(block, 64) == 2 && (LongAt(block, 48) / 2) % 2 == 0
    && (forall i :: 1280 <= i < 1296 || 1352 <= i < 1384 ==> block[i] == 0)
    && record.start == LongAt(block, 1272) && 0 < record.start < 0x8000_0000_0000_0000 && record.start < record.count
  }

  /** The i-th extent: two words of the table, a nonempty range of blocks inside the container. */
  ghost predicate IsExtent(block: seq<byte>, blockCount: nat, i: nat, e: Extent)
    requires 176 + i * 16 + 16 <= |block|
  {
    && e.start == LongAt(block, 176 + i * 16) && e.count == LongAt(block, 184 + i * 16)
    && e.start < 0x8000_0000_0000_0000 && e.count > 0 && e.start + e.count <= blockCount
  }

  ghost predicate AreExtents(block: seq<byte>, blockCount: nat, extents: seq<Extent>)
    requires 176 + |extents| * 16 <= |block|
  {
    forall i: nat :: i < |extents| ==> IsExtent(block, blockCount, i, extents[i])
  }

  /** The number of blocks of the listed extents. */
  function Blocks(extents: seq<Extent>): nat {
    if extents == [] then 0 else Blocks(extents[..|extents| - 1]) + extents[|extents| - 1].count
  }

  /** The record stored in its own block, of version 1, with a file and a list of extents within the limits and with room for the file. */
  ghost predicate IsRecord(block: seq<byte>, limits: Limits, m: Metadata)
    requires |block| >= 4096 && |block| % 4 == 0
  {
    && IsObject(block, 0x5244_534a, 0x14) && WordAt(block, 24) / 0x4000_0000 == 1 && LongAt(block, 8) == m.jumpstartBlock
    && WordAt(block, 36) == 1
    && m.fileLength == WordAt(block, 40) && 0 < m.fileLength <= limits.maxDriverBytes
    && |m.extents| == WordAt(block, 44) && 0 < |m.extents| <= limits.maxExtents && 176 + |m.extents| * 16 <= |block|
    && AreExtents(block, m.blockCount, m.extents)
    && m.fileLength <= Blocks(m.extents) * |block| < U64_LIMIT
  }

  /** The metadata as the bytes of the partition state it. */
  ghost predicate Says(partition: seq<byte>, limits: Limits, m: Metadata) {
    && limits.maxDriverBytes > 0 && limits.maxExtents > 0
    && (m.blockSize == 4096 || m.blockSize == 8192 || m.blockSize == 16384 || m.blockSize == 32768 || m.blockSize == 65536)
    && m.blockSize <= |partition| && WordAt(partition, 36) == m.blockSize
    && IsSuperblock(partition[..m.blockSize], |partition|, Extent(m.jumpstartBlock, m.blockCount))
    && m.jumpstartBlock * m.blockSize + m.blockSize <= |partition|
    && IsRecord(partition[m.jumpstartBlock * m.blockSize..m.jumpstartBlock * m.blockSize + m.blockSize], limits, m)
  }

  lemma WordsAgree(b: seq<byte>, at: nat)
    ensures at + 4 <= |b| ==> C.U32(b, at) == WordAt(b, at)
    ensures at + 8 <= |b| ==> C.U64(b, at) == LongAt(b, at)
  {
  }

  /** The words of a block are its bytes, four at a time. */
  lemma {:induction false} WordsAre(bytes: seq<byte>, k: nat, i: nat)
    requires 4 * k <= |bytes| && i < k
    ensures WordsOf(bytes, k)[i] == WordAt(bytes, 4 * i)
  {
    hide C.U32;
    WordsAgree(bytes, 4 * (k - 1));
    if i < k - 1 {
      WordsAre(bytes, k - 1, i);
    }
  }

  /** The sum of the sums of all prefixes. */
  function PrefixTotal(words: seq<nat>): nat {
    if words == [] then 0 else PrefixTotal(words[..|words| - 1]) + Total(words)
  }

  /** The running sums are the sum of the words and the sum of the sums of the prefixes, modulo 2^32-1. */
  lemma {:induction false} SumsExact(words: seq<nat>)
    ensures SumsOf(words) == Sums(Total(words) % 0xffff_ffff, PrefixTotal(words) % 0xffff_ffff)
  {
    SumIsTotal(words);
    if words != [] {
      SumsExact(words[..|words| - 1]);
      var before, t := PrefixTotal(words[..|words| - 1]), Total(words);
      hide Total, PrefixTotal, SumsOf;
      ModAdd(before, t % 0xffff_ffff);
      ModAdd(t, before);
      StepSums(words);
    }
  }

  lemma StepSums(words: seq<nat>)
    requires words != []
    ensures PrefixTotal(words) == PrefixTotal(words[..|words| - 1]) + Total(words)
    ensures SumsOf(words).prefixes == (SumsOf(words[..|words| - 1]).prefixes + SumsOf(words).sum) % 0xffff_ffff
  {
    hide Total;
  }

  lemma ObjectExact(block: seq<byte>, magic: u32, kind: u32, jumpstart: bool, oid: Option<u64>)
    requires |block| >= 4096 && |block| % 4 == 0 && kind < 0x1_0000
    ensures ObjectError(block, magic, kind, jumpstart, oid).None? <==>
              IsObject(block, magic, kind) && (oid.Some? ==> WordAt(block, 24) / 0x4000_0000 == 1 && LongAt(block, 8) == oid.value)
  {
    hide Checksum, SumsOf, WordsOf, WordAt, LongAt, C.U32, C.U64;
    ChecksumExact(block);
    WordsAgree(block, 0);
    WordsAgree(block, 4);
    WordsAgree(block, 8);
    WordsAgree(block, 16);
    WordsAgree(block, 24);
    WordsAgree(block, 28);
    WordsAgree(block, 32);
    KindWord(C.U32(block, 24), kind);
  }

  /** A type without flags is its low sixteen bits, and its storage class the top two. */
  lemma KindWord(w: nat, kind: nat)
    requires kind < 0x1_0000
    ensures w % 0x4000_0000 == kind <==> w % 0x1_0000 == kind && (w / 0x1_0000) % 0x4000 == 0
  {
    var q, r := w / 0x4000_0000, w % 0x4000_0000;
    var a, b := r / 0x1_0000, r % 0x1_0000;
    assert w == (q * 0x4000 + a) * 0x1_0000 + b;
    DivModUnique(w, 0x1_0000, q * 0x4000 + a, b);
    DivModUnique(q * 0x4000 + a, 0x4000, q, a);
  }

  lemma SuperblockExact(block: seq<byte>, partitionLength: nat, e: Extent)
    requires |block| >= 4096 && |block| % 4 == 0
    ensures Superblock(block, partitionLength) == Ok(e) <==> IsSuperblock(block, partitionLength, e)
  {
    hide ObjectError, IsObject, WordAt, LongAt, C.U32, C.U64, AllZero;
    ObjectExact(block, 0x4253_584e, 1, false, None);
    WordsAgree(block, 40);
    WordsAgree(block, 48);
    WordsAgree(block, 64);
    WordsAgree(block, 1272);
    ZeroBytes(block, 1280, 1296);
    ZeroBytes(block, 1352, 1384);
    if C.U64(block, 1272) < C.U64(block, 40) {
      MulMonotone(C.U64(block, 1272), C.U64(block, 40), |block|);
    }
  }

  lemma ZeroBytes(block: seq<byte>, from: nat, to: nat)
    requires from <= to <= |block|
    ensures AllZero(block[from..to]) <==> forall i :: from <= i < to ==> block[i] == 0
  {
    if AllZero(block[from..to]) {
      forall i | from <= i < to ensures block[i] == 0 {
        assert block[from..to][i - from] == block[i];
      }
    }
  }

  lemma ReadExtentExact(block: seq<byte>, i: nat, blockCount: u64, e: Extent)
    requires 176 + i * 16 + 16 <= |block| && Fits64(blockCount * |block|)
    ensures ReadExtent(block, 176 + i * 16, blockCount) == Ok(e) <==> IsExtent(block, blockCount, i, e)
  {
    hide C.U64, LongAt;
    WordsAgree(block, 176 + i * 16);
    WordsAgree(block, 184 + i * 16);
    var start, count := C.U64(block, 176 + i * 16), C.U64(block, 184 + i * 16);
    if start + count <= blockCount {
      MulMonotone(start, blockCount, |block|);
      MulMonotone(count, blockCount, |block|);
    }
  }

  lemma BlocksSnoc(extents: seq<Extent>, e: Extent)
    ensures Blocks(extents + [e]) == Blocks(extents) + e.count
  {
    assert (extents + [e])[..|extents|] == extents;
  }

  lemma {:induction false} BlocksPrefix(extents: seq<Extent>, k: nat)
    requires k <= |extents|
    ensures Blocks(extents[..k]) <= Blocks(extents)
    decreases |extents|
  {
    if k < |extents| {
      BlocksPrefix(extents[..|extents| - 1], k);
      assert extents[..|extents| - 1][..k] == extents[..k];
    } else {
      assert extents[..k] == extents;
    }
  }

  lemma Distribute(a: nat, b: nat, c: nat)
    ensures (a + b) * c == a * c + b * c
  {
  }

  lemma ExtentsStep(block: seq<byte>, count: nat, blockCount: u64, k: nat, done: Table, e: Extent)
    requires k < count && 176 + count * 16 <= |block| && ReadExtent(block, 176 + k * 16, blockCount) == Ok(e)
    ensures ReadExtents(block, count, blockCount, k, done) ==
              if !Fits64(done.capacity + e.count * |block|) then Err(ArithmeticOverflow)
              else ReadExtents(block, count, blockCount, k + 1, Table(done.extents + [e], done.capacity + e.count * |block|))
  {
    hide ReadExtent;
  }

  /** A table that is read lists the stored words. */
  lemma {:induction false} ExtentsAreRead(block: seq<byte>, count: nat, blockCount: u64, k: nat, done: Table)
    requires 176 + count * 16 <= |block| && Fits64(blockCount * |block|)
    requires k == |done.extents| <= count && AreExtents(block, blockCount, done.extents)
    requires done.capacity == Blocks(done.extents) * |block| && Fits64(done.capacity)
    ensures var r := ReadExtents(block, count, blockCount, k, done);
            r.Ok? ==> |r.value.extents| == count && AreExtents(block, blockCount, r.value.extents) &&
                      r.value.capacity == Blocks(r.value.extents) * |block| && Fits64(r.value.capacity)
    decreases count - k
  {
    hide ReadExtent, IsExtent, Blocks;
    if k < count && ReadExtents(block, count, blockCount, k, done).Ok? {
      var e := ReadExtent(block, 176 + k * 16, blockCount).value;
      ReadExtentExact(block, k, blockCount, e);
      ExtentsStep(block, count, blockCount, k, done, e);
      BlocksSnoc(done.extents, e);
      Distribute(Blocks(done.extents), e.count, |block|);
      ExtentsAreRead(block, count, blockCount, k + 1, Table(done.extents + [e], done.capacity + e.count * |block|));
    }
  }

  /** Every list that the stored words describe, and whose size is a word, is the one that is read. */
  lemma {:induction false} ExtentsAreAllRead(block: seq<byte>, blockCount: u64, k: nat, extents: seq<Extent>)
    requires 176 + |extents| * 16 <= |block| && Fits64(blockCount * |block|)
    requires k <= |extents| && AreExtents(block, blockCount, extents) && Fits64(Blocks(extents) * |block|)
    ensures ReadExtents(block, |extents|, blockCount, k, Table(extents[..k], Blocks(extents[..k]) * |block|))
         == Ok(Table(extents, Blocks(extents) * |block|))
    decreases |extents| - k
  {
    hide ReadExtent, IsExtent, Blocks;
    if k < |extents| {
      var e := extents[k];
      assert IsExtent(block, blockCount, k, e);
      ReadExtentExact(block, k, blockCount, e);
      ExtentsStep(block, |extents|, blockCount, k, Table(extents[..k], Blocks(extents[..k]) * |block|), e);
      BlocksSnoc(extents[..k], e);
      assert extents[..k + 1] == extents[..k] + [e];
      Distribute(Blocks(extents[..k]), e.count, |block|);
      BlocksPrefix(extents, k + 1);
      MulMonotone(Blocks(extents[..k + 1]), Blocks(extents), |block|);
      ExtentsAreAllRead(block, blockCount, k + 1, extents);
    } else {
      assert extents[..k] == extents;
    }
  }

  lemma RecordExact(block: seq<byte>, address: u64, blockCount: u64, limits: Limits, m: Metadata)
    requires |block| >= 4096 && |block| % 4 == 0 && Fits64(blockCount * |block|)
    ensures Record(block, address, blockCount, limits) == Ok(m) <==>
              m.blockSize == |block| && m.blockCount == blockCount && m.jumpstartBlock == address && IsRecord(block, limits, m)
  {
    hide ObjectError, IsObject, WordAt, LongAt, C.U32, C.U64, ReadExtents, AreExtents, Blocks;
    ObjectExact(block, 0x5244_534a, 0x14, true, Some(address));
    WordsAgree(block, 36);
    WordsAgree(block, 40);
    WordsAgree(block, 44);
    NoBlocks(block, blockCount);
    var count := C.U32(block, 44);
    if 176 + count * 16 <= |block| {
      ExtentsAreRead(block, count, blockCount, 0, Table([], 0));
      if |m.extents| == count && AreExtents(block, blockCount, m.extents) && Fits64(Blocks(m.extents) * |block|) {
        ExtentsAreAllRead(block, blockCount, 0, m.extents);
        assert m.extents[..0] == [];
      }
    }
  }

  lemma NoBlocks(block: seq<byte>, blockCount: nat)
    ensures Blocks([]) == 0 && Blocks([]) * |block| == 0 && (176 <= |block| ==> AreExtents(block, blockCount, []))
  {
  }

  /**
   The metadata is accepted exactly as the bytes of the partition state it: both blocks are sealed and of
   their kind, and the file length and the extents are the words stored at their places.
   */
  lemma MetadataExact(partition: seq<byte>, limits: Limits, m: Metadata)
    ensures ReadMetadata(partition, limits) == Ok(m) <==> Says(partition, limits, m)
  {
    hide Superblock, Record, IsSuperblock, IsRecord, C.U32, WordAt;
    if |partition| >= 40 {
      WordsAgree(partition[0..40], 36);
      SameWord(partition, 40, 36);
      var size := C.U32(partition[0..40], 36);
      if BlockSizeOk(size) && size <= |partition| {
        MetadataAt(partition, limits, m, size);
      }
    }
  }

  lemma SameWord(partition: seq<byte>, n: nat, at: nat)
    requires at + 4 <= n <= |partition|
    ensures WordAt(partition[0..n], at) == WordAt(partition, at)
  {
    hide Le;
    assert partition[0..n][at..at + 4] == partition[at..at + 4];
  }

  lemma MetadataAt(partition: seq<byte>, limits: Limits, m: Metadata, size: nat)
    requires |partition| >= 40 && size == C.U32(partition[0..40], 36) == WordAt(partition, 36) && BlockSizeOk(size) && size <= |partition|
    ensures ReadMetadata(partition, limits) == Ok(m) <==> Says(partition, limits, m)
  {
    hide Superblock, Record, IsSuperblock, IsRecord, C.U32, WordAt;
    var block := partition[0..size];
    assert block == partition[..size];
    SuperblockExact(block, |partition|, Extent(m.jumpstartBlock, m.blockCount));
    var found := Superblock(block, |partition|);
    if found.Ok? {
      SuperblockExact(block, |partition|, found.value);
      SuperblockMeans(block, |partition|, found.value);
      BlockInContainer(partition, size, found.value.count, found.value.start);
      var at := found.value.start * size;
      RecordExact(partition[at..at + size], found.value.start, found.value.count, limits, m);
    }
  }

  lemma SuperblockMeans(block: seq<byte>, partitionLength: nat, e: Extent)
    requires |block| >= 4096 && |block| % 4 == 0 && IsSuperblock(block, partitionLength, e)
    ensures e.start < e.count && e.count * |block| <= partitionLength && Fits64(e.count * |block|)
  {
    hide IsObject;
  }

  //////////////////////////////////////////////////////////////////////////////
  // What refused metadata says
  //////////////////////////////////////////////////////////////////////////////

  /** An object is refused for its check words before its magic, and for its magic before anything else. */
  ghost predicate ObjectFails(block: seq<byte>, magic: nat, jumpstart: bool, e: JumpstartError)
    requires |block| >= 4096 && |block| % 4 == 0
  {
    e == if !Sealed(block) then BadChecksum(jumpstart) else if WordAt(block, 32) != magic then BadMagic(jumpstart) else InvalidObject(jumpstart)
  }

  ghost predicate Fused(block: seq<byte>)
    requires |block| >= 4096
  {
    || (LongAt(block, 64) / 0x100) % 2 == 1 || (LongAt(block, 48) / 2) % 2 == 1
    || exists i :: (1280 <= i < 1296 || 1352 <= i < 1384) && block[i] != 0
  }

  /** The first check that the superblock fails. */
  ghost predicate SuperblockFails(block: seq<byte>, partitionLength: nat, e: JumpstartError)
    requires |block| >= 4096 && |block| % 4 == 0
  {
    var count, record := LongAt(block, 40), LongAt(block, 1272);
    if !IsObject(block, 0x4253_584e, 1) then ObjectFails(block, 0x4253_584e, false, e)
    else if count * |block| >= U64_LIMIT then e == ArithmeticOverflow
    else if count * |block| < 0x10_0000 then e == InvalidContainerSize
    else if count * |block| > partitionLength then e == OutOfBounds
    else if Fused(block) then e == UnsupportedFusion
    else if LongAt(block, 64) != 2 then e == UnsupportedFeatures(LongAt(block, 64))
    else if record >= 0x8000_0000_0000_0000 then e == NegativeAddress
    else if record == 0 then e == NoJumpstart
    else record >= count && e == OutOfBounds
  }

  /** The first check that the i-th extent fails, after extents that pass. */
  ghost predicate ExtentFails(block: seq<byte>, blockCount: nat, done: seq<Extent>, e: JumpstartError)
    requires 176 + |done| * 16 + 16 <= |block|
  {
    var start, count := LongAt(block, 176 + |done| * 16), LongAt(block, 184 + |done| * 16);
    if start >= 0x8000_0000_0000_0000 then e == NegativeAddress
    else if count == 0 then e == EmptyExtent
    else if start + count >= U64_LIMIT then e == ArithmeticOverflow
    else if start + count > blockCount then e == OutOfBounds
    else Blocks(done) * |block| + count * |block| >= U64_LIMIT && e == ArithmeticOverflow
  }

  ghost predicate TableFails(block: seq<byte>, blockCount: nat, count: nat, e: JumpstartError)
    requires 176 + count * 16 <= |block|
  {
    exists done: seq<Extent> :: |done| < count && AreExtents(block, blockCount, done) && ExtentFails(block, blockCount, done, e)
  }

  ghost predicate TableHolds(block: seq<byte>, blockCount: nat, count: nat, fileLength: nat)
    requires 176 + count * 16 <= |block|
  {
    exists extents: seq<Extent> :: |extents| == count && AreExtents(block, blockCount, extents) && Blocks(extents) * |block| < fileLength
  }

  /** The first check that the record fails. */
  ghost predicate RecordFails(block: seq<byte>, address: nat, blockCount: nat, limits: Limits, e: JumpstartError)
    requires |block| >= 4096 && |block| % 4 == 0
  {
    var length, count := WordAt(block, 40), WordAt(block, 44);
    if !(IsObject(block, 0x5244_534a, 0x14) && WordAt(block, 24) / 0x4000_0000 == 1 && LongAt(block, 8) == address) then ObjectFails(block, 0x5244_534a, true, e)
    else if WordAt(block, 36) != 1 then e == UnsupportedVersion(WordAt(block, 36))
    else if length == 0 then e == InvalidFileLength
    else if length > limits.maxDriverBytes then e == DriverTooLarge
    else if count == 0 then e == InvalidExtentCount
    else if count > limits.maxExtents then e == TooManyExtents
    else if 176 + count * 16 > |block| then e == ExtentTableOutOfBounds
    else TableFails(block, blockCount, count, e) || (TableHolds(block, blockCount, count, length) && e == InsufficientExtentCapacity)
  }

  lemma ObjectRefused(block: seq<byte>, magic: u32, kind: u32, jumpstart: bool, oid: Option<u64>)
    requires |block| >= 4096 && |block| % 4 == 0 && ObjectError(block, magic, kind, jumpstart, oid).Some?
    ensures ObjectFails(block, magic, jumpstart, ObjectError(block, magic, kind, jumpstart, oid).value)
  {
    hide Checksum, SumsOf, WordsOf, WordAt, LongAt, C.U32, C.U64;
    ChecksumExact(block);
    WordsAgree(block, 0);
    WordsAgree(block, 4);
    WordsAgree(block, 32);
  }

  lemma FusedExact(block: seq<byte>)
    requires |block| >= 4096
    ensures Fused(block) <==>
              (LongAt(block, 64) / 0x100) % 2 == 1 || (LongAt(block, 48) / 2) % 2 == 1 || !AllZero(block[1280..1296]) || !AllZero(block[1352..1384])
  {
    hide LongAt;
    ZeroBytes(block, 1280, 1296);
    ZeroBytes(block, 1352, 1384);
    hide AllZero;
  }

  lemma SuperblockRefused(block: seq<byte>, partitionLength: nat)
    requires |block| >= 4096 && |block| % 4 == 0 && Superblock(block, partitionLength).Err?
    ensures SuperblockFails(block, partitionLength, Superblock(block, partitionLength).error)
  {
    hide ObjectError, IsObject, ObjectFails, WordAt, LongAt, C.U32, C.U64, AllZero, Fused;
    ObjectExact(block, 0x4253_584e, 1, false, None);
    if ObjectError(block, 0x4253_584e, 1, false, None).Some? {
      ObjectRefused(block, 0x4253_584e, 1, false, None);
    }
    FusedExact(block);
    WordsAgree(block, 40);
    WordsAgree(block, 48);
    WordsAgree(block, 64);
    WordsAgree(block, 1272);
    if C.U64(block, 1272) < C.U64(block, 40) {
      MulMonotone(C.U64(block, 1272), C.U64(block, 40), |block|);
    }
  }

  lemma ReadExtentRefused(block: seq<byte>, blockCount: u64, done: seq<Extent>)
    requires 176 + |done| * 16 + 16 <= |block| && Fits64(blockCount * |block|) && ReadExtent(block, 176 + |done| * 16, blockCount).Err?
    ensures ExtentFails(block, blockCount, done, ReadExtent(block, 176 + |done| * 16, blockCount).error)
  {
    hide C.U64, LongAt, Blocks;
    var at := 176 + |done| * 16;
    WordsAgree(block, at);
    WordsAgree(block, 184 + |done| * 16);
    var start, count := C.U64(block, at), C.U64(block, at + 8);
    if start + count <= blockCount {
      MulMonotone(start, blockCount, |block|);
      MulMonotone(count, blockCount, |block|);
    }
  }

  lemma ExtentTooMany(block: seq<byte>, blockCount: u64, done: seq<Extent>, e: Extent)
    requires 176 + |done| * 16 + 16 <= |block| && IsExtent(block, blockCount, |done|, e) && Blocks(done) * |block| + e.count * |block| >= U64_LIMIT
    ensures ExtentFails(block, blockCount, done, ArithmeticOverflow)
  {
    hide LongAt, Blocks;
  }

  /** A table that is not read has an extent that fails after extents that pass. */
  lemma {:induction false} ExtentsRefused(block: seq<byte>, count: nat, blockCount: u64, k: nat, done: Table)
    requires 176 + count * 16 <= |block| && Fits64(blockCount * |block|)
    requires k == |done.extents| <= count && AreExtents(block, blockCount, done.extents)
    requires done.capacity == Blocks(done.extents) * |block| && Fits64(done.capacity)
    requires ReadExtents(block, count, blockCount, k, done).Err?
    ensures TableFails(block, blockCount, count, ReadExtents(block, count, blockCount, k, done).error)
    decreases count - k
  {
    hide ReadExtent, IsExtent, Blocks, ExtentFails, TableFails;
    var e := ReadExtent(block, 176 + k * 16, blockCount);
    if e.Err? {
      ReadExtentRefused(block, blockCount, done.extents);
      FailsAt(block, blockCount, count, done.extents, e.error);
    } else {
      ReadExtentExact(block, k, blockCount, e.value);
      ExtentsStep(block, count, blockCount, k, done, e.value);
      if Fits64(done.capacity + e.value.count * |block|) {
        BlocksSnoc(done.extents, e.value);
        Distribute(Blocks(done.extents), e.value.count, |block|);
        ExtentsRefused(block, count, blockCount, k + 1, Table(done.extents + [e.value], done.capacity + e.value.count * |block|));
      } else {
        ExtentTooMany(block, blockCount, done.extents, e.value);
        FailsAt(block, blockCount, count, done.extents, ArithmeticOverflow);
      }
    }
  }

  lemma FailsAt(block: seq<byte>, blockCount: nat, count: nat, done: seq<Extent>, e: JumpstartError)
    requires 176 + count * 16 <= |block| && |done| < count && AreExtents(block, blockCount, done) && ExtentFails(block, blockCount, done, e)
    ensures TableFails(block, blockCount, count, e)
  {
    hide AreExtents, ExtentFails;
  }

  lemma RecordRefused(block: seq<byte>, address: u64, blockCount: u64, limits: Limits)
    requires |block| >= 4096 && |block| % 4 == 0 && Fits64(blockCount * |block|) && Record(block, address, blockCount, limits).Err?
    ensures RecordFails(block, address, blockCount, limits, Record(block, address, blockCount, limits).error)
  {
    hide ObjectError, IsObject, ObjectFails, WordAt, LongAt, C.U32, C.U64, ReadExtents, AreExtents, Blocks, TableFails;
    ObjectExact(block, 0x5244_534a, 0x14, true, Some(address));
    if ObjectError(block, 0x5244_534a, 0x14, true, Some(address)).Some? {
      ObjectRefused(block, 0x5244_534a, 0x14, true, Some(address));
    }
    WordsAgree(block, 36);
    WordsAgree(block, 40);
    WordsAgree(block, 44);
    NoBlocks(block, blockCount);
    var count := C.U32(block, 44);
    if 176 + count * 16 <= |block| {
      ExtentsAreRead(block, count, blockCount, 0, Table([], 0));
      if ReadExtents(block, count, blockCount, 0, Table([], 0)).Err? {
        ExtentsRefused(block, count, blockCount, 0, Table([], 0));
      }
    }
  }

  /** Why the metadata of a partition is refused. */
  ghost predicate Refuses(partition: seq<byte>, limits: Limits, e: JumpstartError) {
    if limits.maxDriverBytes == 0 || limits.maxExtents == 0 then e == InvalidLimits
    else if |partition| < 40 then e == OutOfBounds
    else
      var size := WordAt(partition, 36);
      if !(size == 4096 || size == 8192 || size == 16384 || size == 32768 || size == 65536) then e == InvalidBlockSize(size)
      else if |partition| < size then e == OutOfBounds
      else SuperblockFails(partition[..size], |partition|, e) || exists r: Extent :: RefusesRecord(partition, size, r, limits, e)
  }

  ghost predicate RefusesRecord(partition: seq<byte>, size: nat, r: Extent, limits: Limits, e: JumpstartError)
    requires 4096 <= size <= |partition| && size % 4 == 0
  {
    && IsSuperblock(partition[..size], |partition|, r) && r.start * size + size <= |partition|
    && RecordFails(partition[r.start * size..r.start * size + size], r.start, r.count, limits, e)
  }

  /** Refused metadata is refused for the first thing that is wrong with it. */
  lemma MetadataRefused(partition: seq<byte>, limits: Limits)
    requires ReadMetadata(partition, limits).Err?
    ensures Refuses(partition, limits, ReadMetadata(partition, limits).error)
  {
    hide Superblock, Record, SuperblockFails, RecordFails, RefusesRecord, C.U32, WordAt;
    if |partition| >= 40 {
      WordsAgree(partition[0..40], 36);
      SameWord(partition, 40, 36);
      var size := C.U32(partition[0..40], 36);
      if limits.maxDriverBytes > 0 && limits.maxExtents > 0 && BlockSizeOk(size) && size <= |partition| {
        RefusedAt(partition, limits, size);
      }
    }
  }

  lemma RefusedAt(partition: seq<byte>, limits: Limits, size: nat)
    requires |partition| >= 40 && size == C.U32(partition[0..40], 36) == WordAt(partition, 36) && BlockSizeOk(size) && size <= |partition|
    requires limits.maxDriverBytes > 0 && limits.maxExtents > 0 && ReadMetadata(partition, limits).Err?
    ensures SuperblockFails(partition[..size], |partition|, ReadMetadata(partition, limits).error) ||
            exists r: Extent :: RefusesRecord(partition, size, r, limits, ReadMetadata(partition, limits).error)
  {
    hide Superblock, Record, IsSuperblock, SuperblockFails, RecordFails, C.U32, WordAt;
    var block := partition[0..size];
    assert block == partition[..size];
    var found := Superblock(block, |partition|);
    if found.Err? {
      SuperblockRefused(block, |partition|);
    } else {
      SuperblockExact(block, |partition|, found.value);
      SuperblockMeans(block, |partition|, found.value);
      BlockInContainer(partition, size, found.value.count, found.value.start);
      var at := found.value.start * size;
      RecordRefused(partition[at..at + size], found.value.start, found.value.count, limits);
      assert RefusesRecord(partition, size, found.value, limits, ReadMetadata(partition, limits).error);
    }
  }

  //////////////////////////////////////////////////////////////////////////////
  // Which bytes the stream holds
  //////////////////////////////////////////////////////////////////////////////

  /** Where byte d of block n stands. */
  function Place(n: nat, size: nat, d: nat): nat {
    n * size + d
  }

  lemma PlaceSplits(a: nat, j: nat, size: nat, d: nat)
    ensures Place(a + j, size, d) == a * size + Place(j, size, d)
  {
    Distribute(a, j, size);
  }

  lemma PlaceInside(n: nat, count: nat, size: nat, d: nat)
    requires n < count && d < size
    ensures Place(n, size, d) < count * size
  {
    MulMonotone(n + 1, count, size);
    Distribute(n, 1, size);
  }

  lemma {:induction false} ExtentByte(partition: seq<byte>, size: nat, blockCount: nat, start: nat, k: nat, j: nat, d: nat)
    requires start + k <= blockCount && blockCount * size <= |partition| && j < k && d < size
    ensures Place(start + j, size, d) < |partition| && Place(j, size, d) < |ExtentBytes(partition, size, start, k)|
    ensures ExtentBytes(partition, size, start, k)[Place(j, size, d)] == partition[Place(start + j, size, d)]
  {
    hide Place, ExtentBytes;
    ExtentLength(partition, size, blockCount, start, k - 1);
    NextOne(partition, size, start, k - 1);
    PlaceInside(start + j, blockCount, size, d);
    if j < k - 1 {
      ExtentByte(partition, size, blockCount, start, k - 1, j, d);
    } else {
      BlockByte(partition, size, blockCount, start + j, d);
      PlaceSplits(j, 0, size, d);
      assert Place(0, size, d) == d by {
        PlaceZero(size, d);
      }
    }
  }

  lemma PlaceZero(size: nat, d: nat)
    ensures Place(0, size, d) == d
  {
  }

  lemma BlockByte(partition: seq<byte>, size: nat, blockCount: nat, n: nat, d: nat)
    requires n < blockCount && blockCount * size <= |partition| && d < size
    ensures Place(n, size, d) < |partition| && |BlockAt(partition, size, n)| == size
    ensures BlockAt(partition, size, n)[d] == partition[Place(n, size, d)]
  {
    BlockInContainer(partition, size, blockCount, n);
  }

  /** Byte d of block j of extent k of the stream is byte d of block start + j of the partition, after all blocks of the extents before it. */
  lemma {:induction false} StreamByte(partition: seq<byte>, size: nat, blockCount: nat, extents: seq<Extent>, k: nat, j: nat, d: nat)
    requires blockCount * size <= |partition| && forall i :: 0 <= i < |extents| ==> extents[i].start + extents[i].count <= blockCount
    requires k < |extents| && j < extents[k].count && d < size
    ensures Place(extents[k].start + j, size, d) < |partition|
    ensures Place(Blocks(extents[..k]) + j, size, d) < |Stream(partition, size, extents)|
    ensures Stream(partition, size, extents)[Place(Blocks(extents[..k]) + j, size, d)] == partition[Place(extents[k].start + j, size, d)]
    decreases |extents|
  {
    hide *;
    var n := |extents| - 1;
    var front, last := extents[..n], extents[n];
    StreamLast(partition, size, extents);
    if k < n {
      StreamByte(partition, size, blockCount, front, k, j, d);
      assert front[..k] == extents[..k];
      InFront(Stream(partition, size, front), ExtentBytes(partition, size, last.start, last.count), Place(Blocks(extents[..k]) + j, size, d));
    } else {
      StreamLength(partition, size, blockCount, front);
      ExtentByte(partition, size, blockCount, last.start, last.count, j, d);
      PlaceSplits(Blocks(front), j, size, d);
      Behind(Stream(partition, size, front), ExtentBytes(partition, size, last.start, last.count), Place(j, size, d));
    }
  }

  lemma StreamLast(partition: seq<byte>, size: nat, extents: seq<Extent>)
    requires extents != []
    ensures var n := |extents| - 1;
            Stream(partition, size, extents) == Stream(partition, size, extents[..n]) + ExtentBytes(partition, size, extents[n].start, extents[n].count)
  {
    hide ExtentBytes;
  }

  lemma InFront(a: seq<byte>, b: seq<byte>, i: nat)
    requires i < |a|
    ensures (a + b)[i] == a[i]
  {
  }

  lemma Behind(a: seq<byte>, b: seq<byte>, i: nat)
    requires i < |b|
    ensures (a + b)[|a| + i] == b[i]
  {
  }

  lemma {:induction false} StreamLength(partition: seq<byte>, size: nat, blockCount: nat, extents: seq<Extent>)
    requires blockCount * size <= |partition| && forall i :: 0 <= i < |extents| ==> extents[i].start + extents[i].count <= blockCount
    ensures |Stream(partition, size, extents)| == Blocks(extents) * size
    decreases |extents|
  {
    hide ExtentBytes;
    if extents != [] {
      var n := |extents| - 1;
      StreamLength(partition, size, blockCount, extents[..n]);
      ExtentLength(partition, size, blockCount, extents[n].start, extents[n].count);
      Distribute(Blocks(extents[..n]), extents[n].count, size);
    }
  }

  //////////////////////////////////////////////////////////////////////////////
  // Extraction
  //////////////////////////////////////////////////////////////////////////////

  /** Copies the first bytes of a block to a place in the file. */
  method PutBlock(file: array<byte>, written: nat, block: seq<byte>, count: nat)
    requires written + count <= file.Length && count <= |block|
    modifies file
    ensures file[..written + count] == old(file[..written]) + block[..count]
  {
    var d: nat := 0;
    while d < count
      invariant d <= count
      invariant file[..written] == old(file[..written])
      invariant file[written..written + d] == block[..d]
    {
      file[written + d] := block[d];
      assert file[written..written + d + 1] == file[written..written + d] + [block[d]];
      d := d + 1;
    }
    assert file[..written + count] == file[..written] + file[written..written + count];
  }

  function Least(a: nat, b: nat): nat {
    if a < b then a else b
  }

  /** `div_ceil`. */
  function CeilDiv(a: nat, b: nat): nat
    requires b > 0
  {
    (a + b - 1) / b
  }

  lemma CeilIs(a: nat, b: nat, q: nat)
    requires b > 0 && a <= q * b < a + b
    ensures CeilDiv(a, b) == q
  {
    DivModUnique(a + b - 1, b, q, a + b - 1 - q * b);
  }

  lemma BelowCeil(i: nat, a: nat, b: nat)
    requires b > 0 && i < CeilDiv(a, b)
    ensures i * b < a
  {
    var q := CeilDiv(a, b);
    MulMonotone(i + 1, q, b);
    assert (i + 1) * b == i * b + b;
    assert q * b <= a + b - 1;
  }

  /** What has been read: whole blocks from the front of the stream, the last of them needed. */
  ghost predicate Reading(stream: seq<byte>, size: nat, length: nat, front: seq<byte>, fetched: nat, written: nat) {
    && front <= stream && |front| == fetched * size && written == Least(length, |front|)
    && (fetched == 0 || (fetched - 1) * size < length)
  }

  lemma ReadOne(stream: seq<byte>, size: nat, length: nat, front: seq<byte>, fetched: nat, written: nat, block: seq<byte>)
    requires Reading(stream, size, length, front, fetched, written) && written < length && |block| == size && front + block <= stream
    ensures Reading(stream, size, length, front + block, fetched + 1, written + Least(length - written, size))
    ensures (front + block)[..written + Least(length - written, size)] == front[..written] + block[..Least(length - written, size)]
  {
    assert (fetched + 1) * size == fetched * size + size;
    assert written == |front|;
  }

  lemma ReadAll(stream: seq<byte>, size: nat, length: nat, front: seq<byte>, fetched: nat, written: nat)
    requires Reading(stream, size, length, front, fetched, written) && size > 0 && 0 < length <= |stream|
    requires front == stream || written == length
    ensures written == length && fetched == CeilDiv(length, size) && front[..length] == stream[..length]
  {
    assert 0 * size == 0;
    if fetched > 0 {
      assert (fetched - 1) * size == fetched * size - size;
      CeilIs(length, size, fetched);
    }
  }

  /** The blocks of one extent that the file needs, as the inner loop of `extract_jumpstart` reads them. */
  method ReadExtentBlocks(partition: seq<byte>, m: Metadata, k: nat, file: array<byte>, from: nat, fetchedBefore: nat, ghost before: seq<byte>)
    returns (written: nat, fetched: nat, ghost front: seq<byte>)
    requires ExtentsOk(partition, m) && k < |m.extents| && file.Length == m.fileLength
    requires before == Stream(partition, m.blockSize, m.extents[..k])
    requires Reading(Stream(partition, m.blockSize, m.extents), m.blockSize, m.fileLength, before, fetchedBefore, from) && from < m.fileLength
    requires file[..from] == before[..from]
    modifies file
    ensures Reading(Stream(partition, m.blockSize, m.extents), m.blockSize, m.fileLength, front, fetched, written)
    ensures file[..written] == front[..written]
    ensures front == Stream(partition, m.blockSize, m.extents[..k + 1]) || written == m.fileLength
  {
    hide Reading, Stream, ExtentsOk, ExtentBytes, BlockAt;
    var extent, size := m.extents[k], m.blockSize;
    ghost var stream := Stream(partition, size, m.extents);
    var needed := CeilDivOf(m, m.fileLength - from);
    var index: nat := 0;
    written, fetched, front := from, fetchedBefore, before;
    ReadingBound(stream, size, m.fileLength, front, fetched, written);
    Started(partition, m, k, before);
    StartedAt(stream, size, m.fileLength, before, fetchedBefore, from);
    while index < Least(extent.count, needed)
      invariant index <= Least(extent.count, needed)
      invariant front == before + ExtentBytes(partition, size, extent.start, index)
      invariant |front| == from + index * size && from == |before|
      invariant Reading(stream, size, m.fileLength, front, fetched, written) && written <= m.fileLength && written <= |front|
      invariant file[..written] == front[..written]
    {
      BelowCeilOf(m, index, m.fileLength - from);
      NotDone(stream, size, m.fileLength, front, fetched, written);
      BlockFits(partition, m, k, index);
      var offset := BlockRange(extent.start + index, 1, m.blockCount, size);
      assert offset.Ok?;
      var block := ReadBounded(partition, m.blockCount * size, offset.value, size);
      assert block.Ok?;
      var count := Least(m.fileLength - written, size);
      ghost var next := front + block.value;
      NextBlock(partition, m, k, index, before);
      ReadOne(stream, size, m.fileLength, front, fetched, written, block.value);
      PutBlock(file, written, block.value, count);
      assert (index + 1) * size == index * size + size;
      written, fetched, front := written + count, fetched + 1, next;
      ReadingBound(stream, size, m.fileLength, front, fetched, written);
      index := index + 1;
    }
    ExtentDone(partition, m, k, before, index, front, from, fetched, written, needed);
  }

  function CeilDivOf(m: Metadata, remaining: nat): nat {
    if m.blockSize > 0 then CeilDiv(remaining, m.blockSize) else 0
  }

  lemma BelowCeilOf(m: Metadata, i: nat, remaining: nat)
    requires i < CeilDivOf(m, remaining)
    ensures i * m.blockSize < remaining
  {
    BelowCeil(i, remaining, m.blockSize);
  }

  lemma Started(partition: seq<byte>, m: Metadata, k: nat, before: seq<byte>)
    requires ExtentsOk(partition, m) && k < |m.extents|
    ensures m.blockSize > 0 && before + ExtentBytes(partition, m.blockSize, m.extents[k].start, 0) == before
  {
    hide Stream;
  }

  lemma StartedAt(stream: seq<byte>, size: nat, length: nat, front: seq<byte>, fetched: nat, written: nat)
    requires Reading(stream, size, length, front, fetched, written) && written < length
    ensures written == |front| && 0 * size == 0
  {
  }

  lemma NotDone(stream: seq<byte>, size: nat, length: nat, front: seq<byte>, fetched: nat, written: nat)
    requires Reading(stream, size, length, front, fetched, written) && |front| < length
    ensures written == |front| < length
  {
  }

  /** Every block the loop asks for is inside the container, and its offset does not overflow. */
  lemma BlockFits(partition: seq<byte>, m: Metadata, k: nat, index: nat)
    requires ExtentsOk(partition, m) && k < |m.extents| && index < m.extents[k].count
    ensures m.extents[k].start + index < m.blockCount && m.blockCount * m.blockSize <= |partition|
    ensures BlockRange(m.extents[k].start + index, 1, m.blockCount, m.blockSize) == Ok((m.extents[k].start + index) * m.blockSize)
    ensures ReadBounded(partition, m.blockCount * m.blockSize, (m.extents[k].start + index) * m.blockSize, m.blockSize)
         == Ok(BlockAt(partition, m.blockSize, m.extents[k].start + index))
    ensures |BlockAt(partition, m.blockSize, m.extents[k].start + index)| == m.blockSize
  {
    hide Stream;
    BlockInContainer(partition, m.blockSize, m.blockCount, m.extents[k].start + index);
  }

  lemma NextBlock(partition: seq<byte>, m: Metadata, k: nat, index: nat, before: seq<byte>)
    requires ExtentsOk(partition, m) && k < |m.extents| && index < m.extents[k].count
    requires before == Stream(partition, m.blockSize, m.extents[..k])
    ensures var e, size := m.extents[k], m.blockSize;
            && before + ExtentBytes(partition, size, e.start, index) + BlockAt(partition, size, e.start + index) == before + ExtentBytes(partition, size, e.start, index + 1)
            && before + ExtentBytes(partition, size, e.start, index + 1) <= Stream(partition, size, m.extents)
  {
    hide *;
    var e, size := m.extents[k], m.blockSize;
    StreamStep(partition, size, m.extents, k);
    StreamPrefix(partition, size, m.extents, k + 1);
    ExtentPrefix(partition, size, e.start, index + 1, e.count);
    NextOne(partition, size, e.start, index);
    JoinNext(before, ExtentBytes(partition, size, e.start, index), BlockAt(partition, size, e.start + index),
             ExtentBytes(partition, size, e.start, e.count), Stream(partition, size, m.extents));
  }

  lemma JoinNext(before: seq<byte>, a: seq<byte>, b: seq<byte>, c: seq<byte>, s: seq<byte>)
    requires a + b <= c && before + c <= s
    ensures before + a + b == before + (a + b) <= s
  {
    PrefixThrough(before, a + b, c, s);
  }

  lemma NextOne(partition: seq<byte>, size: nat, start: nat, index: nat)
    ensures ExtentBytes(partition, size, start, index + 1) == ExtentBytes(partition, size, start, index) + BlockAt(partition, size, start + index)
  {
    hide BlockAt;
  }

  lemma PrefixThrough(a: seq<byte>, b: seq<byte>, c: seq<byte>, s: seq<byte>)
    requires b <= c && a + c <= s
    ensures a + b <= s
  {
    assert (a + c)[..|a + b|] == a + b;
  }

  lemma StreamStep(partition: seq<byte>, size: nat, extents: seq<Extent>, k: nat)
    requires k < |extents|
    ensures Stream(partition, size, extents[..k + 1]) == Stream(partition, size, extents[..k]) + ExtentBytes(partition, size, extents[k].start, extents[k].count)
  {
    hide ExtentBytes;
    assert extents[..k + 1][..k] == extents[..k];
  }

  lemma ExtentDone(partition: seq<byte>, m: Metadata, k: nat, before: seq<byte>, index: nat, front: seq<byte>, from: nat, fetched: nat, written: nat, needed: nat)
    requires ExtentsOk(partition, m) && k < |m.extents| && before == Stream(partition, m.blockSize, m.extents[..k]) && from <= m.fileLength
    requires index == Least(m.extents[k].count, needed) && needed == CeilDivOf(m, m.fileLength - from)
    requires front == before + ExtentBytes(partition, m.blockSize, m.extents[k].start, index) && |front| == from + index * m.blockSize
    requires Reading(Stream(partition, m.blockSize, m.extents), m.blockSize, m.fileLength, front, fetched, written)
    ensures front == Stream(partition, m.blockSize, m.extents[..k + 1]) || written == m.fileLength
  {
    hide *;
    SizePositive(partition, m);
    StreamStep(partition, m.blockSize, m.extents, k);
    LeastOf(m.extents[k].count, needed);
    if index == needed {
      NeededCovers(m, m.fileLength - from);
      WholeFile(Stream(partition, m.blockSize, m.extents), m.blockSize, m.fileLength, front, fetched, written);
    }
  }

  lemma SizePositive(partition: seq<byte>, m: Metadata)
    requires ExtentsOk(partition, m)
    ensures m.blockSize > 0
  {
    hide Stream;
  }

  lemma LeastOf(a: nat, b: nat)
    ensures Least(a, b) == a || Least(a, b) == b
  {
  }

  lemma NeededCovers(m: Metadata, a: nat)
    requires m.blockSize > 0
    ensures a <= CeilDivOf(m, a) * m.blockSize
  {
    hide CeilDiv;
    CeilCovers(a, m.blockSize);
  }

  lemma WholeFile(stream: seq<byte>, size: nat, length: nat, front: seq<byte>, fetched: nat, written: nat)
    requires Reading(stream, size, length, front, fetched, written) && length <= |front|
    ensures written == length
  {
  }

  lemma CeilCovers(a: nat, b: nat)
    requires b > 0
    ensures a <= CeilDiv(a, b) * b
  {
    var x := a + b - 1;
    assert x == (x / b) * b + x % b;
  }

  /**
   The data loop of `extract_jumpstart`: the file is the listed extents, one after the other, cut to the
   length of the file, and takes exactly as many block reads as its length needs.
   */
  method ReadFile(partition: seq<byte>, m: Metadata) returns (file: seq<byte>, fetched: nat)
    requires ExtentsOk(partition, m)
    ensures |file| == m.fileLength && file == Stream(partition, m.blockSize, m.extents)[..m.fileLength]
    ensures m.blockSize > 0 && fetched == CeilDiv(m.fileLength, m.blockSize)
  {
    hide Stream, Reading;
    var bytes := new byte[m.fileLength](i => 0);
    ghost var stream := Stream(partition, m.blockSize, m.extents);
    ghost var front: seq<byte> := [];
    var written: nat, k: nat := 0, 0;
    fetched := 0;
    StreamStart(partition, m);
    while k < |m.extents| && written < m.fileLength
      invariant k <= |m.extents| && written <= m.fileLength && written <= |front|
      invariant Reading(stream, m.blockSize, m.fileLength, front, fetched, written)
      invariant bytes[..written] == front[..written]
      invariant front == Stream(partition, m.blockSize, m.extents[..k]) || written == m.fileLength
    {
      written, fetched, front := ReadExtentBlocks(partition, m, k, bytes, written, fetched, front);
      ReadingBound(stream, m.blockSize, m.fileLength, front, fetched, written);
      k := k + 1;
    }
    assert k == |m.extents| ==> m.extents[..k] == m.extents;
    ReadAll(stream, m.blockSize, m.fileLength, front, fetched, written);
    return bytes[..], fetched;
  }

  lemma ReadingBound(stream: seq<byte>, size: nat, length: nat, front: seq<byte>, fetched: nat, written: nat)
    requires Reading(stream, size, length, front, fetched, written)
    ensures written <= length && written <= |front|
  {
  }

  lemma StreamStart(partition: seq<byte>, m: Metadata)
    requires ExtentsOk(partition, m)
    ensures Stream(partition, m.blockSize, m.extents[..0]) == []
    ensures Reading(Stream(partition, m.blockSize, m.extents), m.blockSize, m.fileLength, [], 0, 0)
  {
    assert 0 * m.blockSize == 0;
  }

  datatype Driver = Driver(bytes: seq<byte>, metadata: Metadata, dataReads: nat)

  lemma ExtentsMean(partition: seq<byte>, m: Metadata)
    requires ExtentsOk(partition, m)
    ensures 0 < m.fileLength <= |Stream(partition, m.blockSize, m.extents)| && m.blockSize > 0
  {
    hide Stream;
  }

  /** Every byte of the file is the byte of the partition that its extent, block and place in the block name. */
  ghost predicate FileIs(partition: seq<byte>, m: Metadata, file: seq<byte>) {
    && |file| == m.fileLength
    && forall k: nat, j: nat, d: nat :: k < |m.extents| && j < m.extents[k].count && d < m.blockSize ==> FileByte(partition, m, file, k, j, d)
  }

  predicate FileByte(partition: seq<byte>, m: Metadata, file: seq<byte>, k: nat, j: nat, d: nat)
    requires k < |m.extents|
  {
    var to, from := Place(Blocks(m.extents[..k]) + j, m.blockSize, d), Place(m.extents[k].start + j, m.blockSize, d);
    to < |file| ==> from < |partition| && file[to] == partition[from]
  }

  lemma StreamIsFile(partition: seq<byte>, m: Metadata, file: seq<byte>)
    requires ExtentsOk(partition, m) && |file| == m.fileLength <= |Stream(partition, m.blockSize, m.extents)|
    requires file == Stream(partition, m.blockSize, m.extents)[..m.fileLength]
    ensures FileIs(partition, m, file)
  {
    hide Stream, Place, Blocks;
    forall k: nat, j: nat, d: nat | k < |m.extents| && j < m.extents[k].count && d < m.blockSize
      ensures FileByte(partition, m, file, k, j, d)
    {
      StreamByte(partition, m.blockSize, m.blockCount, m.extents, k, j, d);
    }
  }

  /** `extract_jumpstart`: all checks first, then the data. */
  method Extract(partition: seq<byte>, limits: Limits) returns (r: Result<Driver, JumpstartError>)
    ensures r.Err? ==> ReadMetadata(partition, limits) == Err(r.error)
    ensures r.Err? ==> Refuses(partition, limits, r.error) && forall m :: !Says(partition, limits, m)
    ensures r.Ok? ==> Says(partition, limits, r.value.metadata) && FileIs(partition, r.value.metadata, r.value.bytes)
    ensures r.Ok? ==>
              && ReadMetadata(partition, limits) == Ok(r.value.metadata)
              && var m := r.value.metadata;
                 && 0 < m.fileLength <= limits.maxDriverBytes && m.blockSize > 0
                 && m.fileLength <= |Stream(partition, m.blockSize, m.extents)|
                 && r.value.bytes == Stream(partition, m.blockSize, m.extents)[..m.fileLength]
                 && r.value.dataReads == CeilDiv(m.fileLength, m.blockSize)
  {
    hide ReadMetadata, Stream, Says, Refuses, FileIs, ExtentsOk;
    var m := ReadMetadata(partition, limits);
    forall a ensures m == Ok(a) <==> Says(partition, limits, a) {
      MetadataExact(partition, limits, a);
    }
    if m.Err? {
      MetadataRefused(partition, limits);
      return Err(m.error);
    }
    MetadataChecked(partition, limits);
    ExtentsMean(partition, m.value);
    var file, fetched := ReadFile(partition, m.value);
    StreamIsFile(partition, m.value, file);
    return Ok(Driver(file, m.value, fetched));
  }
}
