/**
 Stage-1 translation tables at rest: a byte buffer of 16 KiB three-level tables, the tree of
 descriptors it holds, and the finite map from pages to pages that a hardware-style walk reads back
 from those bytes. Arithmetic uses the page size 0x4000 as a literal.
 */
module PageTree {
  import opened Wrappers
  import opened Words

  const PAGE_SIZE: nat := 0x4000
  const MAX_MEMORY_SIZE: nat := 1024 * 1024 * 1024
  const MAX_TABLE_BYTES: nat := 2 * 1024 * 1024
  const MAX_ALIAS_BYTES: nat := 128 * 1024 * 1024
  const LOW_END: nat := 0x8000_0000_0000
  const HIGH_START: nat := 0xffff_8000_0000_0000
  const PA_END: nat := 0x1_0000_0000_0000
  const ADDRESS_MASK: nat := 0x0000_ffff_ffff_c000

  datatype Error =
    | InvalidRange
    | Alignment
    | AddressOverflow
    | TableCapacity
    | UnmappedAddress
    | OverlappingRange

  datatype Alias = Alias(virtualBase: u64, physicalBase: u64, size: u64)

  //////////////////////////////////////////////////////////////////////////////
  // Descriptors
  //////////////////////////////////////////////////////////////////////////////

  /** Byte offset of descriptor i of table t. */
  function Slot(t: nat, i: nat): nat {
    t * 0x4000 + i * 8
  }

  function Entry(bytes: seq<byte>, t: nat, i: nat): nat
    requires Slot(t, i) + 8 <= |bytes|
  {
    Le(bytes[Slot(t, i)..Slot(t, i) + 8])
  }

  predicate AnyNonzero(b: seq<byte>) {
    exists i :: 0 <= i < |b| && b[i] != 0
  }

  /** Descriptor index of a virtual address at a level given by its shift. */
  function Index(va: u64, shift: nat): nat {
    BitAnd(Shr(va, shift), 0x7ff)
  }

  /** Page number of a virtual address within its half. */
  function PageOf(va: u64): nat {
    va / 0x4000 % 0x2_0000_0000
  }

  lemma Pow2Table()
    ensures Pow2(11) == 2048 && Pow2(14) == 0x4000
    ensures Pow2(25) == 0x200_0000 && Pow2(36) == 0x10_0000_0000 && Pow2(48) == PA_END
  {
    Pow2Word();
    Pow2Add(11, 14);
    Pow2Add(11, 25);
    Pow2Add(32, 16);
  }

  lemma IndexIsDigit(va: u64, shift: nat)
    ensures Index(va, shift) == va / Pow2(shift) % 2048
  {
    Pow2Table();
    ShrIsDiv(va, shift);
    AndLow(Shr(va, shift), 11);
  }

  /** The three descriptor indices of an address are the digits of its page number. */
  lemma IndexOfPage(va: u64)
    ensures Index(va, 36) == PageOf(va) / 0x40_0000
    ensures Index(va, 25) == PageOf(va) / 2048 % 2048
    ensures Index(va, 14) == PageOf(va) % 2048
  {
    Pow2Table();
    IndexIsDigit(va, 36);
    IndexIsDigit(va, 25);
    IndexIsDigit(va, 14);
    var x := va / 0x4000;
    DivDiv(va, 0x4000, 0x40_0000);
    DivDiv(va, 0x4000, 2048);
    DivDiv(x, 0x40_0000, 2048);
    DivDiv(x, 2048, 0x40_0000);
    DivDiv(x / 2048 , 2048, 2048);
    DivDiv(x, 2048, 2048);
  }

  /** Splitting a page number into its three indices and joining them again. */
  lemma PageDigits(page: nat)
    requires page < 0x2_0000_0000
    ensures page / 0x40_0000 == page / 2048 / 2048 < 2048
    ensures page / 2048 == (page / 0x40_0000) * 2048 + page / 2048 % 2048 < 0x40_0000
    ensures page == (page / 2048) * 2048 + page % 2048
  {
  }

  lemma MaskAddress(address: nat, flags: nat)
    requires address % 0x4000 == 0 && address < PA_END && flags < 0x4000
    ensures BitAnd(address + flags, ADDRESS_MASK) == address
  {
    Pow2Table();
    AndMask(address + flags, 48, 14);
    DivModUnique(address + flags, 0x4000, address / 0x4000, flags);
    DivModUnique(address + flags, PA_END, 0, address + flags);
  }

  lemma OrFlags(address: nat, flags: nat)
    requires address % 0x4000 == 0 && flags < 0x4000
    ensures BitOr(address, flags) == address + flags
  {
    Pow2Table();
    OrAligned(address, flags, 14);
  }

  /** One step of a walk: the address held by a type-3 descriptor at offset `at`, if there is one. */
  function Follow(bytes: seq<byte>, at: int): Option<nat> {
    if at < 0 || at + 8 > |bytes| then None
    else
      var descriptor := Le(bytes[at..at + 8]);
      if BitAnd(descriptor, 3) != 3 then None else Some(BitAnd(descriptor, ADDRESS_MASK))
  }

  /** A walk by descriptor indices, for tables stored at physical address `base`. */
  function WalkBy(bytes: seq<byte>, base: nat, root: nat, i: nat, j: nat, k: nat): Option<nat> {
    var second := Follow(bytes, root - base + i * 8);
    if second.None? then None else
    var third := Follow(bytes, second.value - base + j * 8);
    if third.None? then None else
    Follow(bytes, third.value - base + k * 8)
  }

  /** A hardware-style walk of a virtual address from the table at physical address `root`. */
  function Walk(bytes: seq<byte>, base: nat, root: nat, va: u64): Option<nat> {
    var page := WalkBy(bytes, base, root, Index(va, 36), Index(va, 25), Index(va, 14));
    if page.None? then None else Some(page.value + va % 0x4000)
  }

  //////////////////////////////////////////////////////////////////////////////
  // The tree of tables
  //////////////////////////////////////////////////////////////////////////////

  /** Which descriptors lead to a table: half 0 is the low root, half 1 the high root. */
  datatype Path = Root(half: nat) | Middle(half: nat, index: nat) | Leaf(half: nat, index: nat)

  predicate IsPath(p: Path) {
    p.half < 2 && (p.Middle? ==> p.index < 2048) && (p.Leaf? ==> p.index < 0x40_0000)
  }

  function Child(p: Path, i: nat): Path
    requires !p.Leaf?
  {
    match p
    case Root(h) => Middle(h, i)
    case Middle(h, m) => Leaf(h, m * 2048 + i)
  }

  type PageMap = map<(nat, nat), nat>

  /** What descriptor i of the table at path p must hold. */
  ghost function Content(base: nat, tables: map<Path, nat>, pages: PageMap, p: Path, i: nat): nat {
    if p.Leaf? then
      if (p.half, p.index * 2048 + i) in pages then pages[(p.half, p.index * 2048 + i)] + 0x403 else 0
    else if Child(p, i) in tables then base + tables[Child(p, i)] * 0x4000 + 3
    else 0
  }

  /** Every table is numbered once and sits at one path. */
  ghost predicate Numbering(tables: map<Path, nat>) {
    && Root(0) in tables && tables[Root(0)] == 0
    && Root(1) in tables && tables[Root(1)] == 1
    && (forall p :: p in tables ==> IsPath(p) && tables[p] < |tables|)
    && (forall p, q :: p in tables && q in tables && tables[p] == tables[q] ==> p == q)
    && (forall h: nat, q: nat :: Leaf(h, q) in tables ==> Middle(h, q / 2048) in tables)
  }

  ghost predicate Pages(tables: map<Path, nat>, pages: PageMap) {
    forall k :: k in pages ==>
      && k.0 < 2 && k.1 < 0x2_0000_0000 && Leaf(k.0, k.1 / 2048) in tables
      && pages[k] % 0x4000 == 0 && pages[k] < PA_END
  }

  /** Descriptor i of the table at path p holds what it must. */
  ghost predicate Holds(bytes: seq<byte>, base: nat, tables: map<Path, nat>, pages: PageMap, p: Path, i: nat)
    requires p in tables && Slot(tables[p], i) + 8 <= |bytes|
  {
    Entry(bytes, tables[p], i) == Content(base, tables, pages, p, i)
  }

  /** The bytes hold exactly the tree of `tables` with the leaves of `pages`. */
  ghost predicate Tree(bytes: seq<byte>, base: nat, tables: map<Path, nat>, pages: PageMap) {
    && |bytes| == |tables| * 0x4000
    && base % 0x4000 == 0 && base + |bytes| <= PA_END
    && Numbering(tables)
    && Pages(tables, pages)
    && (forall p, i :: p in tables && 0 <= i < 2048 ==>
          Holds(bytes, base, tables, pages, p, i))
  }

  /** Storing one descriptor changes that descriptor and no other. */
  lemma StoreEntry(bytes: seq<byte>, t: nat, i: nat, v: nat, t': nat, i': nat)
    requires v < U64_LIMIT
    requires i < 2048 && i' < 2048 && Slot(t, i) + 8 <= |bytes| && Slot(t', i') + 8 <= |bytes|
    ensures Entry(Store(bytes, Slot(t, i), ToLe(v, 8)), t', i') == if t' == t && i' == i then v else Entry(bytes, t', i')
  {
    var after := Store(bytes, Slot(t, i), ToLe(v, 8));
    if t' == t && i' == i {
      assert after[Slot(t, i)..Slot(t, i) + 8] == ToLe(v, 8);
      Pow2Word();
      LeToLe(v, 8);
    } else {
      assert Slot(t', i') + 8 <= Slot(t, i) || Slot(t, i) + 8 <= Slot(t', i');
      assert after[Slot(t', i')..Slot(t', i') + 8] == bytes[Slot(t', i')..Slot(t', i') + 8];
    }
  }

  /** Growing the buffer by a zeroed table keeps the old descriptors and adds empty ones. */
  lemma GrowEntry(bytes: seq<byte>, t: nat, i: nat)
    requires |bytes| % 0x4000 == 0 && i < 2048 && Slot(t, i) + 8 <= |bytes| + 0x4000
    ensures t == |bytes| / 0x4000 ==> Entry(bytes + Zeros(0x4000), t, i) == 0
    ensures t < |bytes| / 0x4000 ==> Entry(bytes + Zeros(0x4000), t, i) == Entry(bytes, t, i)
  {
    var after := bytes + Zeros(0x4000);
    if t == |bytes| / 0x4000 {
      LeZeros(after[Slot(t, i)..Slot(t, i) + 8]);
    } else {
      assert t < |bytes| / 0x4000;
      assert after[Slot(t, i)..Slot(t, i) + 8] == bytes[Slot(t, i)..Slot(t, i) + 8];
    }
  }

  /** The buffer after a table for Child(p, i) is appended and linked from the table at p. */
  function Linked(bytes: seq<byte>, base: nat, t: nat, i: nat): seq<byte>
    requires Slot(t, i) + 8 <= |bytes|
  {
    Store(bytes + Zeros(0x4000), Slot(t, i), ToLe(base + |bytes| + 3, 8))
  }

  lemma LinkKeepsNumbering(tables: map<Path, nat>, p: Path, i: nat)
    requires Numbering(tables) && p in tables && !p.Leaf? && i < 2048 && Child(p, i) !in tables
    ensures |tables[Child(p, i) := |tables|]| == |tables| + 1
    ensures Numbering(tables[Child(p, i) := |tables|])
  {
    var c := Child(p, i);
    var grown := tables[c := |tables|];
    assert grown.Keys == tables.Keys + {c};
    forall h: nat, q: nat | Leaf(h, q) in grown ensures Middle(h, q / 2048) in grown {
      if Leaf(h, q) == c {
        assert p == Middle(h, q / 2048);
      }
    }
  }

  /** Nothing hangs below a path that has no table. */
  lemma EmptyBelow(base: nat, tables: map<Path, nat>, pages: PageMap, c: Path, j: nat)
    requires Numbering(tables) && Pages(tables, pages) && c !in tables && !c.Root? && j < 2048
    ensures Content(base, tables, pages, c, j) == 0
  {
    if c.Leaf? {
      DivModUnique(c.index * 2048 + j, 2048, c.index, j);
    } else {
      DivModUnique(c.index * 2048 + j, 2048, c.index, j);
    }
  }

  lemma ChildInjective(p: Path, i: nat, q: Path, j: nat)
    requires IsPath(p) && IsPath(q) && !p.Leaf? && !q.Leaf? && i < 2048 && j < 2048
    requires Child(p, i) == Child(q, j)
    ensures p == q && i == j
  {
  }

  lemma LinkedEntry(bytes: seq<byte>, base: nat, t: nat, i: nat, t': nat, j: nat)
    requires |bytes| % 0x4000 == 0 && base + |bytes| + 0x4000 <= PA_END
    requires i < 2048 && j < 2048 && t < |bytes| / 0x4000 && t' <= |bytes| / 0x4000
    ensures Entry(Linked(bytes, base, t, i), t', j) ==
            if t' == t && j == i then base + |bytes| + 3
            else if t' == |bytes| / 0x4000 then 0
            else Entry(bytes, t', j)
  {
    StoreEntry(bytes + Zeros(0x4000), t, i, base + |bytes| + 3, t', j);
    GrowEntry(bytes, t', j);
  }

  lemma LinkedContent(base: nat, tables: map<Path, nat>, pages: PageMap, p: Path, i: nat, q: Path, j: nat)
    requires Numbering(tables) && Pages(tables, pages)
    requires p in tables && !p.Leaf? && i < 2048 && j < 2048 && Child(p, i) !in tables
    requires q in tables || q == Child(p, i)
    ensures Content(base, tables[Child(p, i) := |tables|], pages, q, j) ==
            if q == Child(p, i) then 0
            else if q == p && j == i then base + |tables| * 0x4000 + 3
            else Content(base, tables, pages, q, j)
  {
    if q == Child(p, i) {
      EmptyBelow(base, tables, pages, q, j);
    } else if !q.Leaf? && Child(q, j) == Child(p, i) {
      ChildInjective(p, i, q, j);
    }
  }

  lemma LinkHolds(bytes: seq<byte>, base: nat, tables: map<Path, nat>, pages: PageMap, p: Path, i: nat, q: Path, j: nat)
    requires |bytes| == |tables| * 0x4000 && base + |bytes| + 0x4000 <= PA_END
    requires Numbering(tables) && Pages(tables, pages)
    requires p in tables && !p.Leaf? && i < 2048 && j < 2048 && Child(p, i) !in tables
    requires q in tables ==> Holds(bytes, base, tables, pages, q, j)
    requires q in tables || q == Child(p, i)
    ensures Holds(Linked(bytes, base, tables[p], i), base, tables[Child(p, i) := |tables|], pages, q, j)
  {
    var t := if q == Child(p, i) then |tables| else tables[q];
    LinkedEntry(bytes, base, tables[p], i, t, j);
    LinkedContent(base, tables, pages, p, i, q, j);
    assert q in tables && tables[q] == tables[p] ==> q == p;
  }

  lemma LinkKeepsTree(bytes: seq<byte>, base: nat, tables: map<Path, nat>, pages: PageMap, p: Path, i: nat)
    requires Tree(bytes, base, tables, pages)
    requires p in tables && !p.Leaf? && i < 2048 && Child(p, i) !in tables
    requires base + |bytes| + 0x4000 <= PA_END
    ensures Tree(Linked(bytes, base, tables[p], i), base, tables[Child(p, i) := |tables|], pages)
  {
    var grown := tables[Child(p, i) := |tables|];
    LinkKeepsNumbering(tables, p, i);
    forall q, j | q in grown && 0 <= j < 2048
      ensures Holds(Linked(bytes, base, tables[p], i), base, grown, pages, q, j)
    {
      LinkHolds(bytes, base, tables, pages, p, i, q, j);
    }
  }

  lemma MapHolds(bytes: seq<byte>, base: nat, tables: map<Path, nat>, pages: PageMap, h: nat, page: nat, pa: nat, q: Path, j: nat)
    requires |bytes| == |tables| * 0x4000 && Numbering(tables)
    requires h < 2 && page < 0x2_0000_0000 && Leaf(h, page / 2048) in tables && pa < PA_END
    requires q in tables && j < 2048 && Holds(bytes, base, tables, pages, q, j)
    ensures Holds(Store(bytes, Slot(tables[Leaf(h, page / 2048)], page % 2048), ToLe(pa + 0x403, 8)),
                  base, tables, pages[(h, page) := pa], q, j)
  {
    StoreEntry(bytes, tables[Leaf(h, page / 2048)], page % 2048, pa + 0x403, tables[q], j);
  }

  /** Writing a page descriptor into the leaf table of a page maps that page and no other. */
  lemma MapKeepsTree(bytes: seq<byte>, base: nat, tables: map<Path, nat>, pages: PageMap, h: nat, page: nat, pa: nat)
    requires Tree(bytes, base, tables, pages)
    requires h < 2 && page < 0x2_0000_0000 && Leaf(h, page / 2048) in tables
    requires pa % 0x4000 == 0 && pa < PA_END
    ensures Slot(tables[Leaf(h, page / 2048)], page % 2048) + 8 <= |bytes|
    ensures Tree(Store(bytes, Slot(tables[Leaf(h, page / 2048)], page % 2048), ToLe(pa + 0x403, 8)),
                 base, tables, pages[(h, page) := pa])
  {
    forall q, j {:trigger Content(base, tables, pages[(h, page) := pa], q, j)} | q in tables && 0 <= j < 2048
      ensures Holds(Store(bytes, Slot(tables[Leaf(h, page / 2048)], page % 2048), ToLe(pa + 0x403, 8)),
                    base, tables, pages[(h, page) := pa], q, j)
    {
      MapHolds(bytes, base, tables, pages, h, page, pa, q, j);
    }
  }

  //////////////////////////////////////////////////////////////////////////////
  // Walking the tree
  //////////////////////////////////////////////////////////////////////////////

  lemma FollowTable(bytes: seq<byte>, base: nat, tables: map<Path, nat>, pages: PageMap, p: Path, i: nat)
    requires Tree(bytes, base, tables, pages) && p in tables && !p.Leaf? && i < 2048
    ensures Follow(bytes, tables[p] * 0x4000 + i * 8) ==
            if Child(p, i) in tables then Some(base + tables[Child(p, i)] * 0x4000) else None
  {
    hide BitAnd, Le;
    assert Holds(bytes, base, tables, pages, p, i);
    if Child(p, i) in tables {
      var address := base + tables[Child(p, i)] * 0x4000;
      LowFlags(address, 3);
      MaskAddress(address, 3);
    }
  }

  lemma FollowPage(bytes: seq<byte>, base: nat, tables: map<Path, nat>, pages: PageMap, p: Path, i: nat)
    requires Tree(bytes, base, tables, pages) && p in tables && p.Leaf? && i < 2048
    ensures var k := (p.half, p.index * 2048 + i);
            Follow(bytes, tables[p] * 0x4000 + i * 8) == if k in pages then Some(pages[k]) else None
  {
    hide BitAnd, Le;
    assert Holds(bytes, base, tables, pages, p, i);
    var k := (p.half, p.index * 2048 + i);
    if k in pages {
      LowFlags(pages[k], 0x403);
      MaskAddress(pages[k], 0x403);
    }
  }

  lemma LowFlags(address: nat, flags: nat)
    requires address % 0x4000 == 0 && (flags == 3 || flags == 0x403)
    ensures BitAnd(address + flags, 3) == 3
  {
    AndLow(address + flags, 2);
    assert Pow2(2) == 4;
    hide BitAnd, Pow2;
  }

  lemma PathToPage(bytes: seq<byte>, base: nat, tables: map<Path, nat>, pages: PageMap, h: nat, page: nat)
    requires Tree(bytes, base, tables, pages) && h < 2
    ensures Root(h) in tables && tables[Root(h)] == h
    ensures (h, page) in pages ==> Leaf(h, page / 2048) in tables
    ensures Leaf(h, page / 2048) in tables ==> Middle(h, page / 2048 / 2048) in tables
  {
  }

  lemma WalkByIsLookup(bytes: seq<byte>, base: nat, tables: map<Path, nat>, pages: PageMap, h: nat, page: nat)
    requires Tree(bytes, base, tables, pages) && h < 2 && page < 0x2_0000_0000
    ensures WalkBy(bytes, base, base + h * 0x4000, page / 0x40_0000, page / 2048 % 2048, page % 2048) ==
            if (h, page) in pages then Some(pages[(h, page)]) else None
  {
    hide Tree;
    hide Follow;
    var middle, leaf := Middle(h, page / 0x40_0000), Leaf(h, page / 2048);
    PageDigits(page);
    assert Child(Root(h), page / 0x40_0000) == middle && Child(middle, page / 2048 % 2048) == leaf;
    PathToPage(bytes, base, tables, pages, h, page);
    FollowTable(bytes, base, tables, pages, Root(h), page / 0x40_0000);
    if middle in tables {
      FollowTable(bytes, base, tables, pages, middle, page / 2048 % 2048);
      if leaf in tables {
        FollowPage(bytes, base, tables, pages, leaf, page % 2048);
      }
    }
  }

  /** The physical byte a page map gives an address of half h. */
  ghost function Lookup(pages: PageMap, h: nat, va: u64): Option<nat> {
    if (h, PageOf(va)) in pages then Some(pages[(h, PageOf(va))] + va % 0x4000) else None
  }

  /** The walk of the bytes is a lookup in the page map, for every address of either half. */
  lemma WalkIsLookup(bytes: seq<byte>, base: nat, tables: map<Path, nat>, pages: PageMap, h: nat, va: u64)
    requires Tree(bytes, base, tables, pages) && h < 2
    ensures Walk(bytes, base, base + h * 0x4000, va) == Lookup(pages, h, va)
  {
    IndexOfPage(va);
    WalkByIsLookup(bytes, base, tables, pages, h, PageOf(va));
  }

  /** Every table other than the two roots is referenced by exactly one descriptor of the roots and middle tables. */
  lemma OneReference(bytes: seq<byte>, base: nat, tables: map<Path, nat>, pages: PageMap, c: Path)
      returns (p: Path, i: nat)
    requires Tree(bytes, base, tables, pages) && c in tables && !c.Root?
    ensures p in tables && !p.Leaf? && i < 2048 && Entry(bytes, tables[p], i) == base + tables[c] * 0x4000 + 3
    ensures forall q, j :: q in tables && !q.Leaf? && 0 <= j < 2048 && Entry(bytes, tables[q], j) == base + tables[c] * 0x4000 + 3
              ==> q == p && j == i
  {
    p := if c.Middle? then Root(c.half) else Middle(c.half, c.index / 2048);
    i := c.index % 2048;
    assert Child(p, i) == c;
    assert Holds(bytes, base, tables, pages, p, i);
    forall q, j | q in tables && !q.Leaf? && 0 <= j < 2048 && Entry(bytes, tables[q], j) == base + tables[c] * 0x4000 + 3
      ensures q == p && j == i
    {
      assert Holds(bytes, base, tables, pages, q, j);
      assert Child(q, j) in tables && tables[Child(q, j)] == tables[c];
      ChildInjective(p, i, q, j);
    }
  }

  //////////////////////////////////////////////////////////////////////////////
  // Counting tables
  //////////////////////////////////////////////////////////////////////////////

  ghost function Leaves(h: nat, first: nat, count: nat): (s: set<Path>)
    ensures |s| <= count
    ensures forall p :: p in s <==> p.Leaf? && p.half == h && first <= p.index < first + count
  {
    if count == 0 then {} else Leaves(h, first, count - 1) + {Leaf(h, first + count - 1)}
  }

  ghost function Middles(h: nat, first: nat, count: nat): (s: set<Path>)
    ensures |s| <= count
    ensures forall p :: p in s <==> p.Middle? && p.half == h && first <= p.index < first + count
  {
    if count == 0 then {} else Middles(h, first, count - 1) + {Middle(h, first + count - 1)}
  }

  /** The tables that mapping `count` consecutive pages from `first` can ask for. */
  ghost function PathsOf(h: nat, first: nat, count: nat): set<Path> {
    if count == 0 then {}
    else
      Leaves(h, first / 2048, (first + count - 1) / 2048 - first / 2048 + 1)
      + Middles(h, first / 0x40_0000, (first + count - 1) / 0x40_0000 - first / 0x40_0000 + 1)
  }

  /** The tables that mapping one page can ask for. */
  ghost function NeededPaths(h: nat, page: nat): set<Path> {
    {Middle(h, page / 0x40_0000), Leaf(h, page / 2048)}
  }

  lemma PathsOfSize(h: nat, first: nat, count: nat)
    requires count <= 0x1_0000
    ensures |PathsOf(h, first, count)| <= 35
    ensures count <= 0x2000 ==> |PathsOf(h, first, count)| <= 7
  {
    if count > 0 {
      SpanBound(first, count);
      UnionSize(Leaves(h, first / 2048, (first + count - 1) / 2048 - first / 2048 + 1),
                Middles(h, first / 0x40_0000, (first + count - 1) / 0x40_0000 - first / 0x40_0000 + 1));
    }
  }

  lemma SpanBound(first: nat, count: nat)
    requires 0 < count <= 0x1_0000
    ensures (first + count - 1) / 2048 - first / 2048 <= 32
    ensures (first + count - 1) / 0x40_0000 - first / 0x40_0000 <= 1
    ensures count <= 0x2000 ==> (first + count - 1) / 2048 - first / 2048 <= 4
  {
  }

  lemma UnionSize<T>(a: set<T>, b: set<T>)
    ensures |a + b| <= |a| + |b|
  {
    assert a + b == a + (b - a);
    SubsetSize(b - a, b);
  }

  lemma PathsOfPage(h: nat, first: nat, count: nat, page: nat)
    requires count > 0 && first <= page < first + count
    ensures Leaf(h, page / 2048) in PathsOf(h, first, count)
    ensures Middle(h, page / 0x40_0000) in PathsOf(h, first, count)
  {
  }

  lemma SubsetSize<T>(a: set<T>, b: set<T>)
    requires a <= b
    ensures |a| <= |b|
  {
    assert b == a + (b - a);
  }
}
