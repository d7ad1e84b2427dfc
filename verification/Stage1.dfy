/**
 Building the stage-1 table set: the append-only class, the exact errors it can return, the bound on
 the tables it needs, and the translation of every 64-bit address by a finished set.
 */
module Stage1 {
  import opened Wrappers
  import opened Words
  import opened PageTree

  //////////////////////////////////////////////////////////////////////////////
  // Page maps of ranges
  //////////////////////////////////////////////////////////////////////////////

  /** `count` consecutive pages of half h from page `first`, mapped to consecutive physical pages from pa. */
  ghost function RangeMap(h: nat, first: nat, count: nat, pa: nat): (m: PageMap)
    ensures forall k :: k in m <==> k.0 == h && first <= k.1 < first + count
    ensures forall k :: k in m ==> m[k] == pa + (k.1 - first) * 0x4000
  {
    if count == 0 then map[] else RangeMap(h, first, count - 1, pa)[(h, first + count - 1) := pa + (count - 1) * 0x4000]
  }

  /** The two ranges every table set maps: memory onto itself, and memory at its linear high address. */
  ghost function BothMaps(physicalBase: u64, virtualBase: u64, count: nat): PageMap {
    RangeMap(0, PageOf(physicalBase), count, physicalBase) + RangeMap(1, PageOf(virtualBase), count, physicalBase)
  }

  //////////////////////////////////////////////////////////////////////////////
  // Errors
  //////////////////////////////////////////////////////////////////////////////

  /** Why a table cannot be appended to n tables. */
  function AllocateError(base: nat, n: nat): Option<Error> {
    if (n + 1) * 0x4000 > MAX_TABLE_BYTES then Some(TableCapacity)
    else if base + (n + 1) * 0x4000 > PA_END then Some(AddressOverflow)
    else None
  }

  ghost function Missing(tables: map<Path, nat>, h: nat, page: nat): nat {
    (if Middle(h, page / 0x40_0000) in tables then 0 else 1) + (if Leaf(h, page / 2048) in tables then 0 else 1)
  }

  /** Why a page cannot be mapped. */
  ghost function MapError(base: nat, tables: map<Path, nat>, pages: PageMap, h: nat, page: nat): Option<Error> {
    var n, missing := |tables|, Missing(tables, h, page);
    if missing >= 1 && AllocateError(base, n).Some? then AllocateError(base, n)
    else if missing == 2 && AllocateError(base, n + 1).Some? then AllocateError(base, n + 1)
    else if (h, page) in pages then Some(OverlappingRange)
    else None
  }

  /** Why a table set is refused. */
  function RangeError(physicalBase: u64, virtualBase: u64, memorySize: u64): Option<Error> {
    if BitAnd(BitOr(BitOr(physicalBase, virtualBase), memorySize), PAGE_SIZE - 1) != 0 then Some(Alignment)
    else if memorySize == 0 || memorySize > MAX_MEMORY_SIZE then Some(InvalidRange)
    else if !Fits64(physicalBase + memorySize) then Some(AddressOverflow)
    else if !Fits64(virtualBase + memorySize) then Some(AddressOverflow)
    else if physicalBase + memorySize > LOW_END || virtualBase < HIGH_START then Some(InvalidRange)
    else None
  }

  lemma MisalignedOr(a: u64, b: u64, c: u64)
    ensures BitAnd(BitOr(BitOr(a, b), c), PAGE_SIZE - 1) == 0 <==> a % 0x4000 == 0 && b % 0x4000 == 0 && c % 0x4000 == 0
  {
    Pow2Table();
    OrMultiple(a, b, 14);
    OrMultiple(BitOr(a, b), c, 14);
    AndLow(BitOr(BitOr(a, b), c), 14);
  }

  lemma DescriptorAt(bytes: seq<byte>, base: nat, tables: map<Path, nat>, pages: PageMap, p: Path, i: nat)
    requires Tree(bytes, base, tables, pages) && p in tables && !p.Leaf? && i < 2048
    ensures |bytes| == |tables| * 0x4000 && tables[p] < |tables|
    ensures base % 0x4000 == 0 && base + |bytes| <= PA_END
    ensures Entry(bytes, tables[p], i) == if Child(p, i) in tables then base + tables[Child(p, i)] * 0x4000 + 3 else 0
    ensures Child(p, i) in tables ==> tables[Child(p, i)] < |tables|
  {
    assert Holds(bytes, base, tables, pages, p, i);
  }

  lemma PageAt(bytes: seq<byte>, base: nat, tables: map<Path, nat>, pages: PageMap, h: nat, page: nat)
    requires Tree(bytes, base, tables, pages) && h < 2 && Leaf(h, page / 2048) in tables
    ensures Slot(tables[Leaf(h, page / 2048)], page % 2048) + 8 <= |bytes|
    ensures var slot := Slot(tables[Leaf(h, page / 2048)], page % 2048);
            AnyNonzero(bytes[slot..slot + 8]) <==> (h, page) in pages
  {
    hide Le;
    var slot := Slot(tables[Leaf(h, page / 2048)], page % 2048);
    LeZeros(bytes[slot..slot + 8]);
    assert Holds(bytes, base, tables, pages, Leaf(h, page / 2048), page % 2048);
  }

  /** The indices of an address name the path of tables down to its page. */
  lemma PagePath(va: u64, h: nat)
    ensures PageOf(va) < 0x2_0000_0000
    ensures Index(va, 36) < 2048 && Index(va, 25) < 2048 && Index(va, 14) == PageOf(va) % 2048
    ensures Child(Root(h), Index(va, 36)) == Middle(h, PageOf(va) / 0x40_0000)
    ensures Child(Middle(h, PageOf(va) / 0x40_0000), Index(va, 25)) == Leaf(h, PageOf(va) / 2048)
    ensures PageOf(va) / 0x40_0000 == PageOf(va) / 2048 / 2048
  {
    IndexOfPage(va);
    PageDigits(PageOf(va));
  }

  //////////////////////////////////////////////////////////////////////////////
  // Building a table set
  //////////////////////////////////////////////////////////////////////////////

  /** Ranges of whole pages inside one canonical half. */
  predicate InHalf(base: u64, size: nat) {
    && base % 0x4000 == 0 && size % 0x4000 == 0
    && (base + size <= LOW_END || (base >= HIGH_START && base + size < U64_LIMIT))
  }

  lemma PageOfOffset(base: u64, size: nat, offset: nat)
    requires InHalf(base, size) && offset % 0x4000 == 0 && offset < size
    ensures PageOf(base + offset) == PageOf(base) + offset / 0x4000 < 0x2_0000_0000
  {
    if base + size <= LOW_END {
      DivModUnique(base / 0x4000, 0x2_0000_0000, 0, base / 0x4000);
      DivModUnique((base + offset) / 0x4000, 0x2_0000_0000, 0, (base + offset) / 0x4000);
    } else {
      var first := (base - HIGH_START) / 0x4000;
      assert base / 0x4000 == 0x1_FFFF * 0x2_0000_0000 + first;
      DivModUnique(base / 0x4000, 0x2_0000_0000, 0x1_FFFF, first);
      DivModUnique((base + offset) / 0x4000, 0x2_0000_0000, 0x1_FFFF, first + offset / 0x4000);
    }
  }

  ghost function BothPaths(physicalBase: u64, virtualBase: u64, count: nat): set<Path> {
    {Root(0), Root(1)} + PathsOf(0, PageOf(physicalBase), count) + PathsOf(1, PageOf(virtualBase), count)
  }

  /** The roots are in it, and there are at most two of them and 35 tables for each of the two ranges. */
  lemma BothPathsSize(physicalBase: u64, virtualBase: u64, count: nat)
    requires count <= 0x1_0000
    ensures {Root(0), Root(1)} <= BothPaths(physicalBase, virtualBase, count)
    ensures |BothPaths(physicalBase, virtualBase, count)| <= 72
  {
    var low, high := PathsOf(0, PageOf(physicalBase), count), PathsOf(1, PageOf(virtualBase), count);
    hide PathsOf;
    PathsOfSize(0, PageOf(physicalBase), count);
    PathsOfSize(1, PageOf(virtualBase), count);
    UnionSize({Root(0), Root(1)}, low);
    UnionSize({Root(0), Root(1)} + low, high);
  }

  lemma RootsOnly(bytes: seq<byte>, base: nat)
    requires |bytes| == 0x8000 && forall i :: 0 <= i < |bytes| ==> bytes[i] == 0
    requires base % 0x4000 == 0 && base <= LOW_END
    ensures Tree(bytes, base, map[Root(0) := 0, Root(1) := 1], map[])
  {
    var tables := map[Root(0) := 0, Root(1) := 1];
    assert tables.Keys == {Root(0), Root(1)};
    assert |tables| == 2;
    forall p, i | p in tables && 0 <= i < 2048 ensures Holds(bytes, base, tables, map[], p, i) {
      ZeroEntry(bytes, tables[p], i);
    }
  }

  lemma ZeroEntry(bytes: seq<byte>, t: nat, i: nat)
    requires Slot(t, i) + 8 <= |bytes| && forall i :: 0 <= i < |bytes| ==> bytes[i] == 0
    ensures Entry(bytes, t, i) == 0
  {
    LeZeros(bytes[Slot(t, i)..Slot(t, i) + 8]);
  }

  lemma UnionStep<K, V>(a: map<K, V>, b: map<K, V>, ka: K, va: V, kb: K, vb: V)
    requires ka != kb && ka !in b
    ensures a[ka := va] + b[kb := vb] == (a + b)[ka := va][kb := vb]
  {
  }

  lemma RangesStep(p: nat, v: nat, i: nat, pa: nat)
    ensures (0, p + i) !in RangeMap(0, p, i, pa) + RangeMap(1, v, i, pa)
    ensures (1, v + i) !in RangeMap(0, p, i, pa) + RangeMap(1, v, i, pa)
    ensures RangeMap(0, p, i + 1, pa) + RangeMap(1, v, i + 1, pa) ==
            (RangeMap(0, p, i, pa) + RangeMap(1, v, i, pa))[(0, p + i) := pa + i * 0x4000][(1, v + i) := pa + i * 0x4000]
  {
    var low, high := RangeMap(0, p, i, pa), RangeMap(1, v, i, pa);
    UnionStep(low, high, (0, p + i), pa + i * 0x4000, (1, v + i), pa + i * 0x4000);
  }

  /** The next page of each range extends the page map, and neither is mapped yet. */
  lemma BothMapsStep(physicalBase: u64, virtualBase: u64, size: nat, i: nat)
    requires InHalf(physicalBase, size) && InHalf(virtualBase, size) && i * 0x4000 < size
    ensures (0, PageOf(physicalBase + i * 0x4000)) !in BothMaps(physicalBase, virtualBase, i)
    ensures (1, PageOf(virtualBase + i * 0x4000)) !in BothMaps(physicalBase, virtualBase, i)
    ensures BothMaps(physicalBase, virtualBase, i + 1) ==
            BothMaps(physicalBase, virtualBase, i)
              [(0, PageOf(physicalBase + i * 0x4000)) := physicalBase + i * 0x4000]
              [(1, PageOf(virtualBase + i * 0x4000)) := physicalBase + i * 0x4000]
  {
    hide PageOf, RangeMap;
    assert PageOf(physicalBase + i * 0x4000) == PageOf(physicalBase) + i by {
      PageOfOffset(physicalBase, size, i * 0x4000);
    }
    assert PageOf(virtualBase + i * 0x4000) == PageOf(virtualBase) + i by {
      PageOfOffset(virtualBase, size, i * 0x4000);
    }
    RangesStep(PageOf(physicalBase), PageOf(virtualBase), i, physicalBase);
  }

  lemma PagePaths(h: nat, base: u64, size: nat, offset: nat)
    requires InHalf(base, size) && offset % 0x4000 == 0 && offset < size
    ensures Fits64(base + offset)
    ensures NeededPaths(h, PageOf(base + offset)) <= PathsOf(h, PageOf(base), size / 0x4000)
  {
    PageOfOffset(base, size, offset);
    assert offset / 0x4000 < size / 0x4000;
    hide PageOf, PathsOf, InHalf;
    PathsOfPage(h, PageOf(base), size / 0x4000, PageOf(base + offset));
  }

  lemma BothPathsStep(physicalBase: u64, virtualBase: u64, size: nat, offset: nat)
    requires InHalf(physicalBase, size) && InHalf(virtualBase, size) && offset % 0x4000 == 0 && offset < size
    ensures NeededPaths(0, PageOf(physicalBase + offset)) <= BothPaths(physicalBase, virtualBase, size / 0x4000)
    ensures NeededPaths(1, PageOf(virtualBase + offset)) <= BothPaths(physicalBase, virtualBase, size / 0x4000)
  {
    PagePaths(0, physicalBase, size, offset);
    PagePaths(1, virtualBase, size, offset);
    hide PageOf, PathsOf, InHalf, NeededPaths;
  }

  lemma NothingMapped(physicalBase: u64, virtualBase: u64)
    ensures BothMaps(physicalBase, virtualBase, 0) == map[]
  {
  }

  lemma MissingCount(tables: map<Path, nat>, h: nat, page: nat)
    ensures |tables.Keys + NeededPaths(h, page)| == |tables| + Missing(tables, h, page)
  {
    var m, l := Middle(h, page / 0x40_0000), Leaf(h, page / 2048);
    assert tables.Keys + NeededPaths(h, page) == (tables.Keys + {m}) + {l};
    AddOne(tables.Keys, m);
    AddOne(tables.Keys + {m}, l);
  }

  lemma AddOne<T>(s: set<T>, x: T)
    ensures |s + {x}| == |s| + if x in s then 0 else 1
  {
    assert x in s ==> s + {x} == s;
  }

  /** With at most 128 tables in prospect, a page that is not mapped can be mapped. */
  lemma NoMapError(base: nat, tables: map<Path, nat>, pages: PageMap, h: nat, page: nat, paths: set<Path>)
    requires tables.Keys <= paths && NeededPaths(h, page) <= paths && |paths| <= 128
    requires base <= LOW_END && (h, page) !in pages
    ensures MapError(base, tables, pages, h, page).None?
  {
    SubsetSize(tables.Keys + NeededPaths(h, page), paths);
    MissingCount(tables, h, page);
    hide NeededPaths, Missing;
  }

  lemma TableCount(bytes: seq<byte>, base: nat, tables: map<Path, nat>, pages: PageMap, paths: set<Path>)
    requires Tree(bytes, base, tables, pages) && tables.Keys <= paths
    ensures |bytes| <= |paths| * 0x4000
  {
    SubsetSize(tables.Keys, paths);
  }

  //////////////////////////////////////////////////////////////////////////////
  // Aliases
  //////////////////////////////////////////////////////////////////////////////

  predicate RangesOverlap(aStart: nat, aEnd: nat, bStart: nat, bEnd: nat) {
    aStart < bEnd && bStart < aEnd
  }

  predicate Apart(a: Alias, b: Alias) {
    !RangesOverlap(a.virtualBase, a.virtualBase + a.size, b.virtualBase, b.virtualBase + b.size)
  }

  /** Why alias i is refused, given the memory ranges and the aliases before it. */
  function AliasError(physicalBase: u64, virtualBase: u64, memorySize: u64, aliases: seq<Alias>, i: nat): Option<Error>
    requires i < |aliases|
  {
    var a := aliases[i];
    if BitAnd(BitOr(BitOr(a.virtualBase, a.physicalBase), a.size), PAGE_SIZE - 1) != 0 then Some(Alignment)
    else if a.size == 0 || a.size > MAX_ALIAS_BYTES || a.virtualBase < HIGH_START then Some(InvalidRange)
    else if !Fits64(a.virtualBase + a.size) then Some(AddressOverflow)
    else if !Fits64(a.physicalBase + a.size) then Some(AddressOverflow)
    else if a.physicalBase < physicalBase || a.physicalBase + a.size > physicalBase + memorySize then Some(InvalidRange)
    else if RangesOverlap(a.virtualBase, a.virtualBase + a.size, virtualBase, virtualBase + memorySize)
         || (exists j :: 0 <= j < i && !Apart(a, aliases[j])) then Some(OverlappingRange)
    else None
  }

  /** Why the first refused alias from i on, or else the memory range itself, is refused. */
  function FirstAliasError(physicalBase: u64, virtualBase: u64, memorySize: u64, aliases: seq<Alias>, i: nat): Option<Error>
    requires i <= |aliases|
    decreases |aliases| - i
  {
    if i == |aliases| then RangeError(physicalBase, virtualBase, memorySize)
    else
      var e := AliasError(physicalBase, virtualBase, memorySize, aliases, i);
      if e.Some? then e else FirstAliasError(physicalBase, virtualBase, memorySize, aliases, i + 1)
  }

  /** Why a table set with aliases is refused. */
  function AliasesError(physicalBase: u64, virtualBase: u64, memorySize: u64, aliases: seq<Alias>): Option<Error> {
    if |aliases| > 2 then Some(InvalidRange)
    else if !Fits64(physicalBase + memorySize) then Some(AddressOverflow)
    else if !Fits64(virtualBase + memorySize) then Some(AddressOverflow)
    else FirstAliasError(physicalBase, virtualBase, memorySize, aliases, 0)
  }

  lemma {:induction false} NoAliasError(physicalBase: u64, virtualBase: u64, memorySize: u64, aliases: seq<Alias>, i: nat, j: nat)
    requires i <= j <= |aliases| && FirstAliasError(physicalBase, virtualBase, memorySize, aliases, i).None?
    ensures RangeError(physicalBase, virtualBase, memorySize).None?
    ensures j < |aliases| ==> AliasError(physicalBase, virtualBase, memorySize, aliases, j).None?
    decreases |aliases| - i
  {
    hide AliasError, RangeError;
    if i < |aliases| {
      NoAliasError(physicalBase, virtualBase, memorySize, aliases, i + 1, if i < j then j else i + 1);
    }
  }

  /** An alias that is a whole-page range of the high half backed by whole pages of memory. */
  predicate AliasOk(physicalBase: u64, memorySize: u64, a: Alias) {
    && InHalf(a.virtualBase, a.size) && a.virtualBase >= HIGH_START && 0 < a.size <= MAX_ALIAS_BYTES
    && a.physicalBase % 0x4000 == 0 && a.physicalBase >= physicalBase
    && a.physicalBase + a.size <= physicalBase + memorySize
  }

  lemma AliasIsOk(physicalBase: u64, virtualBase: u64, memorySize: u64, aliases: seq<Alias>, i: nat)
    requires i < |aliases| && AliasError(physicalBase, virtualBase, memorySize, aliases, i).None?
    ensures AliasOk(physicalBase, memorySize, aliases[i])
    ensures !RangesOverlap(aliases[i].virtualBase, aliases[i].virtualBase + aliases[i].size, virtualBase, virtualBase + memorySize)
    ensures forall j :: 0 <= j < i ==> Apart(aliases[i], aliases[j])
  {
    hide BitAnd, BitOr;
    MisalignedOr(aliases[i].virtualBase, aliases[i].physicalBase, aliases[i].size);
  }

  lemma RangeIsOk(physicalBase: u64, virtualBase: u64, memorySize: u64)
    requires RangeError(physicalBase, virtualBase, memorySize).None?
    ensures InHalf(physicalBase, memorySize) && InHalf(virtualBase, memorySize)
    ensures physicalBase + memorySize <= LOW_END && virtualBase >= HIGH_START && 0 < memorySize <= MAX_MEMORY_SIZE
  {
    hide BitAnd, BitOr;
    MisalignedOr(physicalBase, virtualBase, memorySize);
  }

  ghost function AliasMaps(aliases: seq<Alias>): PageMap {
    if aliases == [] then map[] else AliasMaps(aliases[..|aliases| - 1]) + AliasPart(aliases[|aliases| - 1], aliases[|aliases| - 1].size / 0x4000)
  }

  ghost function AliasPaths(aliases: seq<Alias>): set<Path> {
    if aliases == [] then {}
    else
      var a := aliases[|aliases| - 1];
      AliasPaths(aliases[..|aliases| - 1]) + PathsOf(1, PageOf(a.virtualBase), a.size / 0x4000)
  }

  lemma {:induction false} AliasPathsSize(aliases: seq<Alias>)
    requires forall j :: 0 <= j < |aliases| ==> aliases[j].size <= MAX_ALIAS_BYTES
    ensures |AliasPaths(aliases)| <= 7 * |aliases|
  {
    if aliases != [] {
      var rest, a := aliases[..|aliases| - 1], aliases[|aliases| - 1];
      AliasPathsSize(rest);
      PathsOfSize(1, PageOf(a.virtualBase), a.size / 0x4000);
      UnionSize(AliasPaths(rest), PathsOf(1, PageOf(a.virtualBase), a.size / 0x4000));
    }
  }

  lemma {:induction false} AliasPathsPrefix(aliases: seq<Alias>, k: nat)
    requires k < |aliases|
    ensures PathsOf(1, PageOf(aliases[k].virtualBase), aliases[k].size / 0x4000) <= AliasPaths(aliases)
  {
    hide PathsOf, PageOf;
    var rest := aliases[..|aliases| - 1];
    if k < |rest| {
      AliasPathsPrefix(rest, k);
    }
  }

  lemma HighPage(va: u64)
    requires va >= HIGH_START
    ensures PageOf(va) == va / 0x4000 - 0x3_FFFE_0000_0000
  {
    DivModUnique(va / 0x4000, 0x2_0000_0000, 0x1_FFFF, va / 0x4000 - 0x3_FFFE_0000_0000);
  }

  /** Disjoint whole-page ranges of the high half have disjoint pages. */
  lemma DisjointPages(base: u64, size: nat, base': u64, size': nat)
    requires InHalf(base, size) && InHalf(base', size') && base >= HIGH_START && base' >= HIGH_START
    requires !RangesOverlap(base, base + size, base', base' + size')
    ensures PageOf(base) + size / 0x4000 <= PageOf(base') || PageOf(base') + size' / 0x4000 <= PageOf(base)
            || size < 0x4000 || size' < 0x4000
  {
    HighPage(base);
    HighPage(base');
    hide PageOf;
  }

  lemma {:induction false} AliasPagesFree(physicalBase: u64, memorySize: u64, aliases: seq<Alias>, a: Alias, page: nat)
    requires AliasOk(physicalBase, memorySize, a)
    requires PageOf(a.virtualBase) <= page < PageOf(a.virtualBase) + a.size / 0x4000
    requires forall j :: 0 <= j < |aliases| ==> AliasOk(physicalBase, memorySize, aliases[j]) && Apart(a, aliases[j])
    ensures (1, page) !in AliasMaps(aliases)
  {
    hide PageOf, InHalf;
    if aliases != [] {
      var rest, last := aliases[..|aliases| - 1], aliases[|aliases| - 1];
      AliasPagesFree(physicalBase, memorySize, rest, a, page);
      assert AliasOk(physicalBase, memorySize, last) && Apart(a, last);
      DisjointPages(a.virtualBase, a.size, last.virtualBase, last.size);
      hide Apart, AliasOk;
    }
  }

  lemma AliasPageBounds(physicalBase: u64, memorySize: u64, a: Alias, offset: nat)
    requires AliasOk(physicalBase, memorySize, a) && physicalBase + memorySize <= LOW_END
    requires offset % 0x4000 == 0 && offset < a.size
    ensures Fits64(a.virtualBase + offset) && a.physicalBase + offset < PA_END && (a.physicalBase + offset) % 0x4000 == 0
    ensures PageOf(a.virtualBase + offset) == PageOf(a.virtualBase) + offset / 0x4000
    ensures offset / 0x4000 < a.size / 0x4000 && offset / 0x4000 * 0x4000 == offset
  {
    PageOfOffset(a.virtualBase, a.size, offset);
    hide PageOf;
  }

  /** Each page of an alias in turn extends the page map by itself. */
  lemma AliasPage(physicalBase: u64, memorySize: u64, a: Alias, offset: nat, before: PageMap)
    requires AliasOk(physicalBase, memorySize, a) && physicalBase + memorySize <= LOW_END
    requires offset % 0x4000 == 0 && offset < a.size && PagesFree(a, before)
    ensures Fits64(a.virtualBase + offset)
    ensures (1, PageOf(a.virtualBase + offset)) !in before + AliasPart(a, offset / 0x4000)
    ensures (before + AliasPart(a, offset / 0x4000))[(1, PageOf(a.virtualBase + offset)) := a.physicalBase + offset]
            == before + AliasPart(a, offset / 0x4000 + 1)
  {
    AliasPageBounds(physicalBase, memorySize, a, offset);
    hide PageOf, AliasPart, AliasOk, InHalf;
    AliasStep(before, a, offset / 0x4000);
  }

  lemma AliasPageNeeds(physicalBase: u64, memorySize: u64, a: Alias, offset: nat)
    requires AliasOk(physicalBase, memorySize, a) && physicalBase + memorySize <= LOW_END
    requires offset % 0x4000 == 0 && offset < a.size
    ensures Fits64(a.virtualBase + offset)
    ensures NeededPaths(1, PageOf(a.virtualBase + offset)) <= PathsOf(1, PageOf(a.virtualBase), a.size / 0x4000)
  {
    AliasPageBounds(physicalBase, memorySize, a, offset);
    hide PageOf, PathsOf, AliasOk, InHalf;
    PathsOfPage(1, PageOf(a.virtualBase), a.size / 0x4000, PageOf(a.virtualBase + offset));
  }

  lemma AliasStep(before: PageMap, a: Alias, i: nat)
    ensures (1, PageOf(a.virtualBase) + i) !in AliasPart(a, i)
    ensures (before + AliasPart(a, i))[(1, PageOf(a.virtualBase) + i) := a.physicalBase + i * 0x4000] == before + AliasPart(a, i + 1)
  {
    hide PageOf;
  }

  /** The first i pages of an alias. */
  ghost function AliasPart(a: Alias, i: nat): PageMap {
    RangeMap(1, PageOf(a.virtualBase), i, a.physicalBase)
  }

  lemma NoPages(a: Alias)
    ensures AliasPart(a, 0) == map[]
  {
  }

  ghost predicate PagesFree(a: Alias, pages: PageMap) {
    forall page: nat :: PageOf(a.virtualBase) <= page < PageOf(a.virtualBase) + a.size / 0x4000 ==> (1, page) !in pages
  }

  /** At most 86 tables are ever needed with two aliases. */
  lemma AliasPathsBound(physicalBase: u64, virtualBase: u64, memorySize: u64, aliases: seq<Alias>)
    requires |aliases| <= 2 && AliasesError(physicalBase, virtualBase, memorySize, aliases).None?
    ensures |BothPaths(physicalBase, virtualBase, memorySize / 0x4000) + AliasPaths(aliases)| <= 86
  {
    hide FirstAliasError, AliasError, RangeError, BothPaths, AliasPaths, AliasOk;
    forall j | 0 <= j < |aliases| ensures aliases[j].size <= MAX_ALIAS_BYTES {
      NoAliasError(physicalBase, virtualBase, memorySize, aliases, 0, j);
      AliasIsOk(physicalBase, virtualBase, memorySize, aliases, j);
      AliasSize(physicalBase, memorySize, aliases[j]);
    }
    NoAliasError(physicalBase, virtualBase, memorySize, aliases, 0, 0);
    RangeIsOk(physicalBase, virtualBase, memorySize);
    BothPathsSize(physicalBase, virtualBase, memorySize / 0x4000);
    AliasPathsSize(aliases);
    UnionSize(BothPaths(physicalBase, virtualBase, memorySize / 0x4000), AliasPaths(aliases));
  }

  lemma AliasSize(physicalBase: u64, memorySize: u64, a: Alias)
    requires AliasOk(physicalBase, memorySize, a)
    ensures a.size <= MAX_ALIAS_BYTES
  {
  }

  /** What alias `index` needs before it is mapped. */
  lemma AliasReady(physicalBase: u64, virtualBase: u64, memorySize: u64, aliases: seq<Alias>, index: nat)
    requires index < |aliases| && AliasesError(physicalBase, virtualBase, memorySize, aliases).None?
    ensures AliasOk(physicalBase, memorySize, aliases[index]) && physicalBase + memorySize <= LOW_END
    ensures PagesFree(aliases[index], BothMaps(physicalBase, virtualBase, memorySize / 0x4000) + AliasMaps(aliases[..index]))
    ensures PathsOf(1, PageOf(aliases[index].virtualBase), aliases[index].size / 0x4000) <= AliasPaths(aliases)
  {
    hide AliasError, RangeError, FirstAliasError, PathsOf, AliasPaths, AliasOk, AliasMaps, PageOf;
    forall j | 0 <= j <= index ensures AliasOk(physicalBase, memorySize, aliases[j]) {
      NoAliasError(physicalBase, virtualBase, memorySize, aliases, 0, j);
      AliasIsOk(physicalBase, virtualBase, memorySize, aliases, j);
    }
    NoAliasError(physicalBase, virtualBase, memorySize, aliases, 0, index);
    AliasIsOk(physicalBase, virtualBase, memorySize, aliases, index);
    RangeIsOk(physicalBase, virtualBase, memorySize);
    AliasPathsPrefix(aliases, index);
    var a := aliases[index];
    forall page: nat | PageOf(a.virtualBase) <= page < PageOf(a.virtualBase) + a.size / 0x4000
      ensures (1, page) !in BothMaps(physicalBase, virtualBase, memorySize / 0x4000) + AliasMaps(aliases[..index])
    {
      AliasPagesFree(physicalBase, memorySize, aliases[..index], a, page);
      LinearPagesFree(physicalBase, virtualBase, memorySize, a, page);
    }
  }

  lemma LinearPagesFree(physicalBase: u64, virtualBase: u64, memorySize: u64, a: Alias, page: nat)
    requires InHalf(virtualBase, memorySize) && virtualBase >= HIGH_START && memorySize > 0
    requires AliasOk(physicalBase, memorySize, a)
    requires !RangesOverlap(a.virtualBase, a.virtualBase + a.size, virtualBase, virtualBase + memorySize)
    requires PageOf(a.virtualBase) <= page < PageOf(a.virtualBase) + a.size / 0x4000
    ensures (1, page) !in BothMaps(physicalBase, virtualBase, memorySize / 0x4000)
  {
    DisjointPages(a.virtualBase, a.size, virtualBase, memorySize);
    hide PageOf;
  }

  //////////////////////////////////////////////////////////////////////////////
  // Translation
  //////////////////////////////////////////////////////////////////////////////

  /** Translation by the pair of roots, each for its own canonical half of the address space. */
  function Translation(bytes: seq<byte>, base: nat, va: u64): Option<nat> {
    if va < LOW_END then Walk(bytes, base, base, va)
    else if va >= HIGH_START then Walk(bytes, base, base + PAGE_SIZE, va)
    else None
  }

  /** Where the ranges say an address goes: its alias, memory at its own address, or linear memory. */
  function Target(physicalBase: u64, virtualBase: u64, memorySize: u64, aliases: seq<Alias>, va: u64): Option<nat> {
    if AliasTarget(aliases, va).Some? then AliasTarget(aliases, va)
    else if physicalBase <= va < physicalBase + memorySize then Some(va)
    else if virtualBase <= va < virtualBase + memorySize then Some(physicalBase + (va - virtualBase))
    else None
  }

  function AliasTarget(aliases: seq<Alias>, va: u64): Option<nat> {
    if aliases == [] then None
    else
      var a := aliases[|aliases| - 1];
      if a.virtualBase <= va < a.virtualBase + a.size then Some(a.physicalBase + (va - a.virtualBase))
      else AliasTarget(aliases[..|aliases| - 1], va)
  }

  lemma LowPage(va: u64)
    requires va < LOW_END
    ensures PageOf(va) == va / 0x4000
  {
    DivModUnique(va / 0x4000, 0x2_0000_0000, 0, va / 0x4000);
  }

  /** Looking an address up in the page map of a range of its own half. */
  lemma RangeLookup(h: nat, base: u64, size: nat, pa: nat, va: u64)
    requires InHalf(base, size) && size > 0
    requires if h == 0 then base + size <= LOW_END && va < LOW_END else base >= HIGH_START && va >= HIGH_START
    ensures Lookup(RangeMap(h, PageOf(base), size / 0x4000, pa), h, va) ==
            if base <= va < base + size then Some(pa + (va - base)) else None
  {
    if h == 0 {
      LowPage(base);
      LowPage(va);
    } else {
      HighPage(base);
      HighPage(va);
    }
    hide PageOf;
  }

  lemma OtherHalf(h: nat, first: nat, count: nat, pa: nat, h': nat, va: u64)
    requires h != h'
    ensures Lookup(RangeMap(h, first, count, pa), h', va) == None
  {
  }

  lemma LookupUnion(a: PageMap, b: PageMap, h: nat, va: u64)
    ensures Lookup(a + b, h, va) == if Lookup(b, h, va).Some? then Lookup(b, h, va) else Lookup(a, h, va)
  {
    hide PageOf;
  }

  lemma AliasPartLookup(a: Alias, va: u64)
    requires InHalf(a.virtualBase, a.size) && a.virtualBase >= HIGH_START && a.size > 0
    ensures Lookup(AliasPart(a, a.size / 0x4000), 0, va) == None
    ensures va >= HIGH_START ==>
              Lookup(AliasPart(a, a.size / 0x4000), 1, va) ==
              if a.virtualBase <= va < a.virtualBase + a.size then Some(a.physicalBase + (va - a.virtualBase)) else None
  {
    OtherHalf(1, PageOf(a.virtualBase), a.size / 0x4000, a.physicalBase, 0, va);
    hide Lookup, RangeMap, InHalf;
    if va >= HIGH_START {
      RangeLookup(1, a.virtualBase, a.size, a.physicalBase, va);
    }
  }

  lemma AliasLookupStep(physicalBase: u64, memorySize: u64, a: Alias, rest: PageMap, va: u64)
    requires AliasOk(physicalBase, memorySize, a)
    ensures Lookup(rest + AliasPart(a, a.size / 0x4000), 0, va) == Lookup(rest, 0, va)
    ensures va >= HIGH_START ==>
              Lookup(rest + AliasPart(a, a.size / 0x4000), 1, va) ==
              if a.virtualBase <= va < a.virtualBase + a.size then Some(a.physicalBase + (va - a.virtualBase)) else Lookup(rest, 1, va)
    ensures a.virtualBase >= HIGH_START
  {
    AliasPartLookup(a, va);
    hide Lookup, AliasPart, InHalf;
    LookupUnion(rest, AliasPart(a, a.size / 0x4000), 0, va);
    LookupUnion(rest, AliasPart(a, a.size / 0x4000), 1, va);
  }

  lemma {:induction false} AliasLookup(physicalBase: u64, memorySize: u64, aliases: seq<Alias>, va: u64)
    requires forall j :: 0 <= j < |aliases| ==> AliasOk(physicalBase, memorySize, aliases[j])
    ensures Lookup(AliasMaps(aliases), 0, va) == None
    ensures va >= HIGH_START ==> Lookup(AliasMaps(aliases), 1, va) == AliasTarget(aliases, va)
    ensures va < HIGH_START ==> AliasTarget(aliases, va) == None
  {
    hide AliasOk, AliasPart;
    if aliases != [] {
      hide Lookup;
      AliasLookup(physicalBase, memorySize, aliases[..|aliases| - 1], va);
      AliasLookupStep(physicalBase, memorySize, aliases[|aliases| - 1], AliasMaps(aliases[..|aliases| - 1]), va);
    }
  }

  lemma BothLookup(physicalBase: u64, virtualBase: u64, memorySize: u64, va: u64)
    requires InHalf(physicalBase, memorySize) && InHalf(virtualBase, memorySize) && memorySize > 0
    requires physicalBase + memorySize <= LOW_END && virtualBase >= HIGH_START
    ensures va < LOW_END ==>
              Lookup(BothMaps(physicalBase, virtualBase, memorySize / 0x4000), 0, va) ==
              if physicalBase <= va < physicalBase + memorySize then Some(va) else None
    ensures va >= HIGH_START ==>
              Lookup(BothMaps(physicalBase, virtualBase, memorySize / 0x4000), 1, va) ==
              if virtualBase <= va < virtualBase + memorySize then Some(physicalBase + (va - virtualBase)) else None
  {
    var n, p, v := memorySize / 0x4000, PageOf(physicalBase), PageOf(virtualBase);
    hide Lookup, RangeMap, PageOf;
    LookupUnion(RangeMap(0, p, n, physicalBase), RangeMap(1, v, n, physicalBase), 0, va);
    LookupUnion(RangeMap(0, p, n, physicalBase), RangeMap(1, v, n, physicalBase), 1, va);
    OtherHalf(0, p, n, physicalBase, 1, va);
    OtherHalf(1, v, n, physicalBase, 0, va);
    if va < LOW_END {
      RangeLookup(0, physicalBase, memorySize, physicalBase, va);
    } else if va >= HIGH_START {
      RangeLookup(1, virtualBase, memorySize, physicalBase, va);
    }
  }

  lemma TranslationIsLookup(bytes: seq<byte>, base: nat, tables: map<Path, nat>, pages: PageMap, va: u64)
    requires Tree(bytes, base, tables, pages)
    ensures Translation(bytes, base, va) ==
            if va < LOW_END then Lookup(pages, 0, va) else if va >= HIGH_START then Lookup(pages, 1, va) else None
  {
    hide Tree, Walk, Lookup;
    WalkIsLookup(bytes, base, tables, pages, 0, va);
    WalkIsLookup(bytes, base, tables, pages, 1, va);
  }

  /**
   For every 64-bit virtual address, the walk of a finished table set reaches the physical byte the
   ranges name, and every other address is unmapped.
   */
  lemma TranslationExact(bytes: seq<byte>, tables: map<Path, nat>, pages: PageMap,
                         physicalBase: u64, virtualBase: u64, memorySize: u64, aliases: seq<Alias>, va: u64)
    requires RangeError(physicalBase, virtualBase, memorySize).None?
    requires forall j :: 0 <= j < |aliases| ==> AliasOk(physicalBase, memorySize, aliases[j])
    requires Tree(bytes, physicalBase + memorySize, tables, pages)
    requires pages == BothMaps(physicalBase, virtualBase, memorySize / 0x4000) + AliasMaps(aliases)
    ensures Translation(bytes, physicalBase + memorySize, va) == Target(physicalBase, virtualBase, memorySize, aliases, va)
  {
    hide *;
    TranslationIsLookup(bytes, physicalBase + memorySize, tables, pages, va);
    RangeIsOk(physicalBase, virtualBase, memorySize);
    RangesLookup(physicalBase, virtualBase, memorySize, aliases, va);
  }

  lemma RangesLookup(physicalBase: u64, virtualBase: u64, memorySize: u64, aliases: seq<Alias>, va: u64)
    requires InHalf(physicalBase, memorySize) && InHalf(virtualBase, memorySize) && memorySize > 0
    requires physicalBase + memorySize <= LOW_END && virtualBase >= HIGH_START
    requires forall j :: 0 <= j < |aliases| ==> AliasOk(physicalBase, memorySize, aliases[j])
    ensures var pages := BothMaps(physicalBase, virtualBase, memorySize / 0x4000) + AliasMaps(aliases);
            Target(physicalBase, virtualBase, memorySize, aliases, va) ==
            if va < LOW_END then Lookup(pages, 0, va) else if va >= HIGH_START then Lookup(pages, 1, va) else None
  {
    hide AliasOk, BothMaps, AliasMaps, AliasTarget, Lookup;
    AliasLookup(physicalBase, memorySize, aliases, va);
    BothLookup(physicalBase, virtualBase, memorySize, va);
    hide InHalf;
    var both := BothMaps(physicalBase, virtualBase, memorySize / 0x4000);
    LookupUnion(both, AliasMaps(aliases), 0, va);
    LookupUnion(both, AliasMaps(aliases), 1, va);
  }

  /** Finished tables give every address its target, and no other address one. */
  ghost predicate Translates(bytes: seq<byte>, physicalBase: u64, virtualBase: u64, memorySize: u64, aliases: seq<Alias>) {
    forall va: u64 :: Translation(bytes, physicalBase + memorySize, va) == Target(physicalBase, virtualBase, memorySize, aliases, va)
  }

  lemma NoAliases(physicalBase: u64, virtualBase: u64, memorySize: u64, bytes: seq<byte>, tables: map<Path, nat>, pages: PageMap)
    requires RangeError(physicalBase, virtualBase, memorySize).None?
    requires Tree(bytes, physicalBase + memorySize, tables, pages)
    requires pages == BothMaps(physicalBase, virtualBase, memorySize / 0x4000)
    ensures Translates(bytes, physicalBase, virtualBase, memorySize, [])
  {
    hide Tree, Translation, Target, BothMaps, RangeError;
    assert pages == pages + AliasMaps([]);
    forall va: u64
      ensures Translation(bytes, physicalBase + memorySize, va) == Target(physicalBase, virtualBase, memorySize, [], va)
    {
      TranslationExact(bytes, tables, pages, physicalBase, virtualBase, memorySize, [], va);
    }
  }

  lemma WithAliases(physicalBase: u64, virtualBase: u64, memorySize: u64, aliases: seq<Alias>,
                    bytes: seq<byte>, tables: map<Path, nat>, pages: PageMap)
    requires AliasesError(physicalBase, virtualBase, memorySize, aliases).None?
    requires Tree(bytes, physicalBase + memorySize, tables, pages)
    requires pages == BothMaps(physicalBase, virtualBase, memorySize / 0x4000) + AliasMaps(aliases)
    ensures Translates(bytes, physicalBase, virtualBase, memorySize, aliases)
  {
    hide Tree, Translation, Target, BothMaps, AliasMaps, AliasError, RangeError, FirstAliasError, AliasOk;
    NoAliasError(physicalBase, virtualBase, memorySize, aliases, 0, 0);
    forall j | 0 <= j < |aliases| ensures AliasOk(physicalBase, memorySize, aliases[j]) {
      NoAliasError(physicalBase, virtualBase, memorySize, aliases, 0, j);
      AliasIsOk(physicalBase, virtualBase, memorySize, aliases, j);
    }
    forall va: u64
      ensures Translation(bytes, physicalBase + memorySize, va) == Target(physicalBase, virtualBase, memorySize, aliases, va)
    {
      TranslationExact(bytes, tables, pages, physicalBase, virtualBase, memorySize, aliases, va);
    }
  }

  /** Aliases are disjoint from the linear range and from each other, so the order of cases in Target never matters. */
  lemma AliasesDisjoint(physicalBase: u64, virtualBase: u64, memorySize: u64, aliases: seq<Alias>, i: nat, va: u64)
    requires AliasesError(physicalBase, virtualBase, memorySize, aliases).None? && i < |aliases|
    requires aliases[i].virtualBase <= va < aliases[i].virtualBase + aliases[i].size
    ensures Target(physicalBase, virtualBase, memorySize, aliases, va) == Some(aliases[i].physicalBase + (va - aliases[i].virtualBase))
    ensures !(physicalBase <= va < physicalBase + memorySize) && !(virtualBase <= va < virtualBase + memorySize)
    ensures forall j :: 0 <= j < |aliases| && j != i ==> !(aliases[j].virtualBase <= va < aliases[j].virtualBase + aliases[j].size)
  {
    hide FirstAliasError, AliasError, RangeError, InHalf;
    forall j | 0 <= j < |aliases|
      ensures j != i ==> !(aliases[j].virtualBase <= va < aliases[j].virtualBase + aliases[j].size)
      ensures j == i ==> va >= HIGH_START && !(virtualBase <= va < virtualBase + memorySize)
    {
      NoAliasError(physicalBase, virtualBase, memorySize, aliases, 0, if i < j then j else i);
      AliasIsOk(physicalBase, virtualBase, memorySize, aliases, if i < j then j else i);
      assert j != i ==> Apart(aliases[if i < j then j else i], aliases[if i < j then i else j]);
    }
    NoAliasError(physicalBase, virtualBase, memorySize, aliases, 0, 0);
    RangeIsOk(physicalBase, virtualBase, memorySize);
    OnlyTarget(aliases, i, va);
  }

  lemma {:induction false} OnlyTarget(aliases: seq<Alias>, i: nat, va: u64)
    requires i < |aliases| && aliases[i].virtualBase <= va < aliases[i].virtualBase + aliases[i].size
    requires forall j :: 0 <= j < |aliases| && j != i ==> !(aliases[j].virtualBase <= va < aliases[j].virtualBase + aliases[j].size)
    ensures AliasTarget(aliases, va) == Some(aliases[i].physicalBase + (va - aliases[i].virtualBase))
  {
    if i < |aliases| - 1 {
      OnlyTarget(aliases[..|aliases| - 1], i, va);
    }
  }

  //////////////////////////////////////////////////////////////////////////////
  // The table set
  //////////////////////////////////////////////////////////////////////////////

  class Stage1Tables {
    var bytes: seq<byte>
    const tableBase: u64
    const ramBase: u64
    const virtualBase: u64
    const memorySize: u64

    ghost var tables: map<Path, nat>
    ghost var pages: PageMap

    constructor (tableBase: u64, ramBase: u64, virtualBase: u64, memorySize: u64)
      ensures this.tableBase == tableBase && this.ramBase == ramBase
      ensures this.virtualBase == virtualBase && this.memorySize == memorySize
      ensures bytes == [] && tables == map[] && pages == map[]
    {
      this.tableBase := tableBase;
      this.ramBase := ramBase;
      this.virtualBase := virtualBase;
      this.memorySize := memorySize;
      bytes := [];
      tables := map[];
      pages := map[];
    }

    ghost predicate Valid()
      reads this
    {
      Tree(bytes, tableBase, tables, pages)
    }

    method AllocateTable() returns (r: Result<nat, Error>)
      requires |bytes| % 0x4000 == 0
      modifies this`bytes
      ensures r == match AllocateError(tableBase, |old(bytes)| / 0x4000)
                   case Some(e) => Err(e)
                   case None => Ok(|old(bytes)|)
      ensures bytes == if r.Ok? then old(bytes) + Zeros(0x4000) else old(bytes)
    {
      var start := |bytes|;
      var end := start + PAGE_SIZE;
      if end > MAX_TABLE_BYTES {
        return Err(TableCapacity);
      }
      if !Fits64(tableBase + end) || tableBase + end > PA_END {
        return Err(AddressOverflow);
      }
      bytes := bytes + Zeros(0x4000);
      return Ok(start);
    }

    /** Appends an empty table and links it as child `index` of the table at path p. */
    method AddChild(slot: nat, index: nat, ghost p: Path) returns (r: Result<nat, Error>)
      requires Valid() && p in tables && !p.Leaf? && index < 2048 && Child(p, index) !in tables
      requires slot == Slot(tables[p], index)
      modifies this`bytes, this`tables
      ensures Valid()
      ensures match AllocateError(tableBase, |old(tables)|)
              case Some(e) => tables == old(tables) && r == Err(e)
              case None => tables == old(tables)[Child(p, index) := |old(tables)|] && r == Ok(|old(tables)| * 0x4000)
    {
      hide Tree, BitOr, IsPath;
      ghost var before := bytes;
      DescriptorAt(before, tableBase, tables, pages, p, index);
      var next := AllocateTable();
      if next.Err? {
        return Err(next.error);
      }
      OrFlags(tableBase + next.value, 3);
      LinkKeepsTree(before, tableBase, tables, pages, p, index);
      bytes := Store(bytes, slot, ToLe(BitOr(tableBase + next.value, 3), 8));
      tables := tables[Child(p, index) := |tables|];
      return Ok(next.value);
    }

    /** Descends from the table at path p to its child i, creating the child when it is missing. */
    method Descend(table: nat, index: nat, ghost p: Path) returns (r: Result<nat, Error>)
      requires Valid() && p in tables && !p.Leaf? && index < 2048
      requires table == tables[p] * 0x4000
      modifies this`bytes, this`tables
      ensures Valid()
      ensures Child(p, index) in old(tables) ==> tables == old(tables) && r == Ok(tables[Child(p, index)] * 0x4000)
      ensures Child(p, index) !in old(tables) ==>
                match AllocateError(tableBase, |old(tables)|)
                case Some(e) => tables == old(tables) && r == Err(e)
                case None => tables == old(tables)[Child(p, index) := |old(tables)|] && r == Ok(|old(tables)| * 0x4000)
    {
      hide Tree, BitAnd, IsPath, AllocateError;
      DescriptorAt(bytes, tableBase, tables, pages, p, index);
      var slot := table + index * 8;
      var descriptor := Le(bytes[slot..slot + 8]);
      if descriptor == 0 {
        r := AddChild(slot, index, p);
      } else {
        MaskAddress(tableBase + tables[Child(p, index)] * 0x4000, 3);
        return Ok(BitAnd(descriptor, ADDRESS_MASK) - tableBase);
      }
    }

    /** Maps one page. An error leaves the page map as it was, though new empty tables may stay. */
    method MapPage(root: nat, va: u64, pa: u64, ghost h: nat) returns (r: Result<(), Error>)
      requires Valid() && h < 2 && root == h * 0x4000
      requires pa % 0x4000 == 0 && pa < PA_END
      modifies this
      ensures Valid()
      ensures r == match MapError(tableBase, old(tables), old(pages), h, PageOf(va))
                   case Some(e) => Err(e)
                   case None => Ok(())
      ensures pages == if r.Ok? then old(pages)[(h, PageOf(va)) := pa] else old(pages)
      ensures old(tables).Keys <= tables.Keys
      ensures tables.Keys <= old(tables).Keys + NeededPaths(h, PageOf(va))
    {
      hide Tree, Index, PageOf, AnyNonzero, BitOr;
      ghost var page := PageOf(va);
      ghost var middle, leaf := Middle(h, page / 0x40_0000), Leaf(h, page / 2048);
      PagePath(va, h);
      PathToPage(bytes, tableBase, tables, pages, h, page);
      ghost var before := tables;
      var second := Descend(root, Index(va, 36), Root(h));
      if second.Err? {
        return Err(second.error);
      }
      var third := Descend(second.value, Index(va, 25), middle);
      if third.Err? {
        return Err(third.error);
      }
      PageAt(bytes, tableBase, tables, pages, h, page);
      var slot := third.value + Index(va, 14) * 8;
      if AnyNonzero(bytes[slot..slot + 8]) {
        return Err(OverlappingRange);
      }
      OrFlags(pa, 0x403);
      MapKeepsTree(bytes, tableBase, tables, pages, h, page, pa);
      bytes := Store(bytes, slot, ToLe(BitOr(pa, 0x403), 8));
      pages := pages[(h, page) := pa];
      return Ok(());
    }

    /** The software reading of the linear high range: where a physical address is mapped. */
    function VirtualAddress(pa: u64): Result<u64, Error> {
      if pa < ramBase then Err(UnmappedAddress)
      else if pa - ramBase >= memorySize then Err(UnmappedAddress)
      else if !Fits64(virtualBase + (pa - ramBase)) then Err(AddressOverflow)
      else Ok(virtualBase + (pa - ramBase))
    }

    /** The two empty roots. */
    static method Roots(tableBase: u64, ramBase: u64, virtualBase: u64, memorySize: u64) returns (r: Result<Stage1Tables, Error>)
      requires tableBase % 0x4000 == 0 && tableBase <= LOW_END
      ensures r.Ok? && fresh(r.value) && r.value.Valid()
      ensures r.value.tableBase == tableBase && r.value.ramBase == ramBase
      ensures r.value.virtualBase == virtualBase && r.value.memorySize == memorySize
      ensures r.value.pages == map[] && r.value.tables.Keys == {Root(0), Root(1)}
    {
      hide Tree;
      var result := new Stage1Tables(tableBase, ramBase, virtualBase, memorySize);
      var low := result.AllocateTable();
      assert low.Ok?;
      var high := result.AllocateTable();
      assert high.Ok?;
      result.tables := map[Root(0) := 0, Root(1) := 1];
      RootsOnly(result.bytes, tableBase);
      return Ok(result);
    }

    /** The loop of New: maps each page of memory at its own address and at its linear address. */
    method MapBoth(ghost paths: set<Path>) returns (r: Result<(), Error>)
      requires Valid() && pages == map[] && tableBase <= LOW_END && memorySize > 0
      requires InHalf(ramBase, memorySize) && InHalf(virtualBase, memorySize) && ramBase + memorySize <= LOW_END
      requires paths == BothPaths(ramBase, virtualBase, memorySize / 0x4000) && |paths| <= 128 && tables.Keys <= paths
      modifies this
      ensures r.Ok? && Valid()
      ensures pages == BothMaps(ramBase, virtualBase, memorySize / 0x4000) && tables.Keys <= paths
    {
      hide Tree, BothMaps, BothPaths, NeededPaths, MapError, PageOf;
      NothingMapped(ramBase, virtualBase);
      var offset := 0;
      while offset < memorySize
        invariant offset % 0x4000 == 0 && offset <= memorySize
        invariant Valid() && tables.Keys <= paths
        invariant pages == BothMaps(ramBase, virtualBase, offset / 0x4000)
      {
        var pa := ramBase + offset;
        BothMapsStep(ramBase, virtualBase, memorySize, offset / 0x4000);
        BothPathsStep(ramBase, virtualBase, memorySize, offset);
        NoMapError(tableBase, tables, pages, 0, PageOf(pa), paths);
        var identity := MapPage(0, pa, pa, 0);
        assert identity.Ok?;
        NoMapError(tableBase, tables, pages, 1, PageOf(virtualBase + offset), paths);
        var linear := MapPage(PAGE_SIZE, virtualBase + offset, pa, 1);
        assert linear.Ok?;
        offset := offset + PAGE_SIZE;
      }
      return Ok(());
    }

    /** Maps memory onto itself and at its linear high address; fails only on the ranges themselves. */
    static method New(physicalBase: u64, virtualBase: u64, memorySize: u64) returns (r: Result<Stage1Tables, Error>)
      ensures RangeError(physicalBase, virtualBase, memorySize).Some? ==>
                r == Err(RangeError(physicalBase, virtualBase, memorySize).value)
      ensures RangeError(physicalBase, virtualBase, memorySize).None? ==>
                && r.Ok? && fresh(r.value) && r.value.Valid()
                && r.value.tableBase == physicalBase + memorySize && r.value.ramBase == physicalBase
                && r.value.virtualBase == virtualBase && r.value.memorySize == memorySize
                && r.value.pages == BothMaps(physicalBase, virtualBase, memorySize / 0x4000)
                && r.value.tables.Keys <= BothPaths(physicalBase, virtualBase, memorySize / 0x4000)
                && |r.value.bytes| <= 72 * 0x4000
                && Translates(r.value.bytes, physicalBase, virtualBase, memorySize, [])
    {
      hide Translates, Tree, BothMaps, BothPaths, BitOr, BitAnd;
      MisalignedOr(physicalBase, virtualBase, memorySize);
      if BitAnd(BitOr(BitOr(physicalBase, virtualBase), memorySize), PAGE_SIZE - 1) != 0 {
        return Err(Alignment);
      }
      if memorySize == 0 || memorySize > MAX_MEMORY_SIZE {
        return Err(InvalidRange);
      }
      if !Fits64(physicalBase + memorySize) {
        return Err(AddressOverflow);
      }
      var tableBase := physicalBase + memorySize;
      if !Fits64(virtualBase + memorySize) {
        return Err(AddressOverflow);
      }
      if tableBase > LOW_END || virtualBase < HIGH_START {
        return Err(InvalidRange);
      }
      var roots := Roots(tableBase, physicalBase, virtualBase, memorySize);
      assert roots.Ok?;
      var result := roots.value;
      ghost var paths := BothPaths(physicalBase, virtualBase, memorySize / 0x4000);
      BothPathsSize(physicalBase, virtualBase, memorySize / 0x4000);
      var mapped := result.MapBoth(paths);
      assert mapped.Ok?;
      TableCount(result.bytes, tableBase, result.tables, result.pages, paths);
      NoAliases(physicalBase, virtualBase, memorySize, result.bytes, result.tables, result.pages);
      return Ok(result);
    }

    /** Maps one alias range. */
    method MapAlias(alias: Alias, ghost paths: set<Path>) returns (r: Result<(), Error>)
      requires Valid() && tableBase <= LOW_END && AliasOk(ramBase, memorySize, alias) && ramBase + memorySize <= LOW_END
      requires PagesFree(alias, pages)
      requires tables.Keys + PathsOf(1, PageOf(alias.virtualBase), alias.size / 0x4000) <= paths && |paths| <= 128
      modifies this
      ensures r.Ok? && Valid()
      ensures pages == old(pages) + AliasPart(alias, alias.size / 0x4000) && tables.Keys <= paths
    {
      hide Tree, PathsOf, NeededPaths, MapError, PageOf, PagesFree, AliasPart;
      var offset := 0;
      assert AliasPart(alias, 0) == map[] by {
        NoPages(alias);
      }
      while offset < alias.size
        invariant offset % 0x4000 == 0 && offset <= alias.size
        invariant Valid() && tables.Keys <= paths
        invariant pages == old(pages) + AliasPart(alias, offset / 0x4000)
      {
        AliasPageBounds(ramBase, memorySize, alias, offset);
        AliasPage(ramBase, memorySize, alias, offset, old(pages));
        AliasPageNeeds(ramBase, memorySize, alias, offset);
        NoMapError(tableBase, tables, pages, 1, PageOf(alias.virtualBase + offset), paths);
        var mapped := MapPage(PAGE_SIZE, alias.virtualBase + offset, alias.physicalBase + offset, 1);
        assert mapped.Ok?;
        offset := offset + PAGE_SIZE;
      }
      return Ok(());
    }

    /** The checks NewWithAliases makes before it builds anything. */
    static method CheckAliases(physicalBase: u64, virtualBase: u64, memorySize: u64, aliases: seq<Alias>)
        returns (e: Option<Error>)
      ensures AliasesError(physicalBase, virtualBase, memorySize, aliases) ==
              if e.Some? then e else RangeError(physicalBase, virtualBase, memorySize)
      ensures e.None? ==> |aliases| <= 2
    {
      if |aliases| > 2 {
        return Some(InvalidRange);
      }
      if !Fits64(physicalBase + memorySize) {
        return Some(AddressOverflow);
      }
      if !Fits64(virtualBase + memorySize) {
        return Some(AddressOverflow);
      }
      var physicalEnd, linearEnd := physicalBase + memorySize, virtualBase + memorySize;
      hide BitOr, BitAnd, Apart, RangeError;
      for index := 0 to |aliases|
        invariant AliasesError(physicalBase, virtualBase, memorySize, aliases)
               == FirstAliasError(physicalBase, virtualBase, memorySize, aliases, index)
      {
        var alias := aliases[index];
        if BitAnd(BitOr(BitOr(alias.virtualBase, alias.physicalBase), alias.size), PAGE_SIZE - 1) != 0 {
          return Some(Alignment);
        }
        if alias.size == 0 || alias.size > MAX_ALIAS_BYTES || alias.virtualBase < HIGH_START {
          return Some(InvalidRange);
        }
        if !Fits64(alias.virtualBase + alias.size) || !Fits64(alias.physicalBase + alias.size) {
          return Some(AddressOverflow);
        }
        if alias.physicalBase < physicalBase || alias.physicalBase + alias.size > physicalEnd {
          return Some(InvalidRange);
        }
        if RangesOverlap(alias.virtualBase, alias.virtualBase + alias.size, virtualBase, linearEnd)
           || (exists j :: 0 <= j < index && !Apart(alias, aliases[j])) {
          return Some(OverlappingRange);
        }
      }
      return None;
    }

    /** Adds at most two disjoint high aliases of memory to a fresh table set. */
    static method NewWithAliases(physicalBase: u64, virtualBase: u64, memorySize: u64, aliases: seq<Alias>)
        returns (r: Result<Stage1Tables, Error>)
      ensures AliasesError(physicalBase, virtualBase, memorySize, aliases).Some? ==>
                r == Err(AliasesError(physicalBase, virtualBase, memorySize, aliases).value)
      ensures AliasesError(physicalBase, virtualBase, memorySize, aliases).None? ==>
                && r.Ok? && fresh(r.value) && r.value.Valid()
                && r.value.tableBase == physicalBase + memorySize && r.value.ramBase == physicalBase
                && r.value.virtualBase == virtualBase && r.value.memorySize == memorySize
                && r.value.pages == BothMaps(physicalBase, virtualBase, memorySize / 0x4000) + AliasMaps(aliases)
                && |r.value.bytes| <= 86 * 0x4000
                && Translates(r.value.bytes, physicalBase, virtualBase, memorySize, aliases)
    {
      hide Translates, Tree, BothMaps, BothPaths, AliasMaps, AliasesError, RangeError;
      var refused := CheckAliases(physicalBase, virtualBase, memorySize, aliases);
      if refused.Some? {
        return Err(refused.value);
      }
      var made := New(physicalBase, virtualBase, memorySize);
      if made.Err? {
        return Err(made.error);
      }
      var result := made.value;
      var added := result.MapAliases(aliases);
      assert added.Ok?;
      WithAliases(physicalBase, virtualBase, memorySize, aliases, result.bytes, result.tables, result.pages);
      return Ok(result);
    }

    /** The last loop of NewWithAliases. */
    method MapAliases(aliases: seq<Alias>) returns (r: Result<(), Error>)
      requires |aliases| <= 2 && AliasesError(ramBase, virtualBase, memorySize, aliases).None?
      requires Valid() && tableBase == ramBase + memorySize
      requires pages == BothMaps(ramBase, virtualBase, memorySize / 0x4000)
      requires tables.Keys <= BothPaths(ramBase, virtualBase, memorySize / 0x4000)
      modifies this
      ensures r.Ok? && Valid()
      ensures pages == old(pages) + AliasMaps(aliases) && |bytes| <= 86 * 0x4000
    {
      hide Tree, BothMaps, BothPaths, PathsOf, AliasPart, AliasPaths, AliasesError, FirstAliasError, AliasError, RangeError, AliasOk, PageOf, PagesFree;
      ghost var paths := BothPaths(ramBase, virtualBase, memorySize / 0x4000) + AliasPaths(aliases);
      AliasPathsBound(ramBase, virtualBase, memorySize, aliases);
      for index := 0 to |aliases|
        invariant Valid() && tables.Keys <= paths
        invariant pages == old(pages) + AliasMaps(aliases[..index])
      {
        AliasReady(ramBase, virtualBase, memorySize, aliases, index);
        assert aliases[..index + 1][..index] == aliases[..index];
        var mapped := MapAlias(aliases[index], paths);
        assert mapped.Ok?;
      }
      assert aliases[..|aliases|] == aliases;
      TableCount(bytes, tableBase, tables, pages, paths);
      return Ok(());
    }
  }

  /**
   The linear high address of a physical byte translates back to that byte, exactly the bytes of
   memory have one, and the address addition never overflows.
   */
  lemma VirtualAddressInverts(t: Stage1Tables, pa: u64)
    requires RangeError(t.ramBase, t.virtualBase, t.memorySize).None?
    requires Translates(t.bytes, t.ramBase, t.virtualBase, t.memorySize, [])
    ensures t.ramBase <= pa < t.ramBase + t.memorySize <==> t.VirtualAddress(pa).Ok?
    ensures t.VirtualAddress(pa).Err? ==> t.VirtualAddress(pa).error == UnmappedAddress
    ensures t.VirtualAddress(pa).Ok? ==>
              Translation(t.bytes, t.ramBase + t.memorySize, t.VirtualAddress(pa).value) == Some(pa)
  {
    hide Translation, BitAnd, BitOr;
    RangeIsOk(t.ramBase, t.virtualBase, t.memorySize);
    if t.VirtualAddress(pa).Ok? {
      var va := t.VirtualAddress(pa).value;
      assert Translation(t.bytes, t.ramBase + t.memorySize, va) == Target(t.ramBase, t.virtualBase, t.memorySize, [], va);
    }
  }
}
