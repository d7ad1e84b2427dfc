/**
 The ledger of guest memory as a value: reservations of one aperture, the generation that counts its
 mutations, and the bytes behind it; and runs of many ledgers that take their owners from one counter.
 */
module Ledger {
  import opened Wrappers
  import opened Words
  import FlatDt

  const MAX_RESERVATIONS: nat := 64

  datatype Error =
    | EmptyBacking
    | ArithmeticOverflow
    | IdentityExhausted
    | GenerationExhausted
    | InvalidSize
    | InvalidAlignment
    | UnalignedAddress
    | OutsideAperture
    | Overlap
    | ReservationLimit
    | NoSpace
    | ForeignOwner
    | ReleasedReservation
    | StaleSnapshot
    | WrongPurpose
    | DestinationCapacity

  datatype Purpose = KernelImage | BootArguments | RuntimeDeviceTree | Stack | TranslationTables | ProviderData

  datatype Extent = Extent(address: nat, bytes: nat) {
    function End(): nat {
      address + bytes
    }
  }

  datatype Token = Token(owner: nat, serial: nat)

  datatype Stamp = Stamp(owner: nat, generation: nat)

  datatype Record = Record(token: Token, extent: Extent, alignment: nat, purpose: Purpose)

  type Slots = seq<Option<Record>>

  datatype Ledger = Ledger(aperture: Extent, owner: nat, generation: nat, slots: Slots, ram: seq<byte>)

  /** A checked tree bound to a snapshot and a destination. */
  datatype Prepared = Prepared(tree: seq<byte>, stamp: Stamp, destination: Token)

  //////////////////////////////////////////////////////////////////////////////
  // Alignment
  //////////////////////////////////////////////////////////////////////////////

  predicate IsPowerOfTwo(a: nat) {
    a == 1 || (a > 0 && a % 2 == 0 && IsPowerOfTwo(a / 2))
  }

  lemma {:induction false} PowerExponent(a: nat) returns (k: nat)
    requires IsPowerOfTwo(a)
    ensures a == Pow2(k)
  {
    if a == 1 {
      k := 0;
    } else {
      var j := PowerExponent(a / 2);
      k := j + 1;
    }
  }

  lemma {:induction false} PowersPass(k: nat)
    ensures Pow2(k) > 0 && IsPowerOfTwo(Pow2(k))
  {
    if k > 0 {
      PowersPass(k - 1);
      assert Pow2(k) == 2 * Pow2(k - 1);
    }
  }

  /** The test the program makes of an alignment holds of the powers of two and of nothing else. */
  lemma PowerOfTwoExact(a: nat)
    ensures IsPowerOfTwo(a) <==> exists k: nat :: a == Pow2(k)
  {
    hide IsPowerOfTwo;
    if IsPowerOfTwo(a) {
      var k := PowerExponent(a);
    }
    if k: nat :| a == Pow2(k) {
      PowersPass(k);
    }
  }

  lemma PowerOfWord(a: u64) returns (k: nat)
    requires IsPowerOfTwo(a)
    ensures a == Pow2(k) && k < 64
  {
    k := PowerExponent(a);
    Pow2Word();
    if k >= 64 {
      Pow2Monotone(64, k);
    }
  }

  /** The least multiple of the alignment at or after an address, if it is a 64-bit word. */
  function AlignUp(address: u64, alignment: u64): (r: Result<nat, Error>)
    requires IsPowerOfTwo(alignment)
    ensures r.Ok? ==> address <= r.value < address + alignment && r.value < U64_LIMIT && r.value % alignment == 0
    ensures r.Err? ==> r.error == ArithmeticOverflow
  {
    if !Fits64(address + alignment - 1) then Err(ArithmeticOverflow)
    else
      AlignUpValue(address, alignment);
      Ok(RoundDown(address + alignment - 1, alignment))
  }

  lemma AlignUpValue(address: u64, alignment: u64)
    requires IsPowerOfTwo(alignment) && Fits64(address + alignment - 1)
    ensures alignment > 0
    ensures var x := address + alignment - 1;
            RoundDown(x, alignment) == x - x % alignment
    ensures (address + alignment - 1 - (address + alignment - 1) % alignment) % alignment == 0
  {
    hide BitAnd, IsPowerOfTwo, Pow2;
    var k := PowerOfWord(alignment);
    var x := address + alignment - 1;
    AndNotLow(x, k);
    RoundedMultiple(x, alignment);
  }

  /** Nothing aligned lies between an address and the aligned one after it. */
  lemma AlignUpLeast(address: u64, alignment: u64, b: nat)
    requires IsPowerOfTwo(alignment) && alignment > 0 && address <= b < U64_LIMIT && b % alignment == 0
    ensures AlignUp(address, alignment).Ok? && AlignUp(address, alignment).value <= b
  {
    hide BitAnd, IsPowerOfTwo, Pow2;
    var k := PowerOfWord(alignment);
    WordMultiple(k);
    NextMultiple(b, alignment, U64_LIMIT);
    if AlignUp(address, alignment).Ok? {
      var v := AlignUp(address, alignment).value;
      if v > b {
        NextMultiple(b, alignment, v);
      }
    }
  }

  lemma WordMultiple(k: nat)
    requires k <= 64
    ensures U64_LIMIT % Pow2(k) == 0
  {
    hide Pow2;
    Pow2Word();
    Pow2Add(64 - k, k);
    DivModUnique(U64_LIMIT, Pow2(k), Pow2(64 - k), 0);
  }

  /** Two multiples differ by at least the alignment. */
  lemma NextMultiple(b: nat, a: nat, c: nat)
    requires a > 0 && b % a == 0 && c % a == 0 && b < c
    ensures b + a <= c
  {
    assert b == (b / a) * a && c == (c / a) * a;
    if b / a >= c / a {
      MulMonotone(c / a, b / a, a);
    } else {
      MulMonotone(b / a + 1, c / a, a);
      assert (b / a + 1) * a == b + a;
    }
  }

  //////////////////////////////////////////////////////////////////////////////
  // Soundness of a ledger
  //////////////////////////////////////////////////////////////////////////////

  predicate Disjoint(a: Extent, b: Extent) {
    a.End() <= b.address || b.End() <= a.address
  }

  predicate RecordOk(l: Ledger, r: Record) {
    && r.token.owner == l.owner && 1 <= r.token.serial <= l.generation
    && r.extent.bytes > 0 && r.alignment > 0 && r.extent.address % r.alignment == 0
    && l.aperture.address <= r.extent.address && r.extent.End() <= l.aperture.End()
  }

  predicate Apart(r: Record, s: Record) {
    Disjoint(r.extent, s.extent) && r.token != s.token
  }

  predicate Live(l: Ledger, i: nat) {
    i < |l.slots| && l.slots[i].Some?
  }

  /** Live reservations are nonempty, aligned, inside the aperture, disjoint, and named apart. */
  ghost predicate Sound(l: Ledger) {
    && |l.slots| == MAX_RESERVATIONS && l.aperture.bytes == |l.ram| > 0
    && Fits64(l.aperture.End()) && l.generation < U64_LIMIT
    && (forall i: nat :: Live(l, i) ==> RecordOk(l, l.slots[i].value))
    && (forall i: nat, j: nat :: Live(l, i) && Live(l, j) && i != j ==> Apart(l.slots[i].value, l.slots[j].value))
  }

  //////////////////////////////////////////////////////////////////////////////
  // Operations
  //////////////////////////////////////////////////////////////////////////////

  function RequestError(bytes: u64, alignment: u64): Option<Error> {
    if bytes == 0 then Some(InvalidSize) else if !IsPowerOfTwo(alignment) then Some(InvalidAlignment) else None
  }

  /** The first slot without a reservation. */
  function FreeSlot(slots: Slots): (r: Option<nat>)
    ensures r.Some? ==> r.value < |slots| && slots[r.value].None?
    ensures r.None? <==> forall i :: 0 <= i < |slots| ==> slots[i].Some?
  {
    FreeSlotFrom(slots, 0)
  }

  function FreeSlotFrom(slots: Slots, i: nat): (r: Option<nat>)
    requires i <= |slots|
    ensures r.Some? ==> i <= r.value < |slots| && slots[r.value].None? && forall j :: i <= j < r.value ==> slots[j].Some?
    ensures r.None? <==> forall j :: i <= j < |slots| ==> slots[j].Some?
    decreases |slots| - i
  {
    if i == |slots| then None else if slots[i].None? then Some(i) else FreeSlotFrom(slots, i + 1)
  }

  predicate Blocks(slot: Option<Record>, address: nat, end: nat) {
    slot.Some? && address < slot.value.extent.End() && slot.value.extent.address < end
  }

  predicate AnyBlocks(slots: Slots, address: nat, end: nat) {
    exists i :: 0 <= i < |slots| && Blocks(slots[i], address, end)
  }

  function ReserveError(l: Ledger, address: u64, bytes: u64, alignment: u64): Option<Error> {
    if RequestError(bytes, alignment).Some? then RequestError(bytes, alignment)
    else if alignment == 0 || address % alignment != 0 then Some(UnalignedAddress)
    else if !Fits64(address + bytes) then Some(ArithmeticOverflow)
    else if address < l.aperture.address || address + bytes > l.aperture.End() then Some(OutsideAperture)
    else if AnyBlocks(l.slots, address, address + bytes) then Some(Overlap)
    else if FreeSlot(l.slots).None? then Some(ReservationLimit)
    else if !Fits64(l.generation + 1) then Some(GenerationExhausted)
    else None
  }

  function Reserve(l: Ledger, address: u64, bytes: u64, alignment: u64, purpose: Purpose): (Ledger, Result<Token, Error>) {
    var e := ReserveError(l, address, bytes, alignment);
    if e.Some? then (l, Err(e.value))
    else
      (Reserved(l, FreeSlot(l.slots).value, Extent(address, bytes), alignment, purpose), Ok(Token(l.owner, l.generation + 1)))
  }

  /** The ledger with a new reservation in a slot. */
  function Reserved(l: Ledger, slot: nat, extent: Extent, alignment: nat, purpose: Purpose): Ledger
    requires slot < |l.slots|
  {
    var record := Record(Token(l.owner, l.generation + 1), extent, alignment, purpose);
    l.(slots := l.slots[slot := Some(record)], generation := l.generation + 1)
  }

  /** The furthest end of a reservation that blocks [address, end). */
  function BlockingEnd(slots: Slots, address: nat, end: nat): (r: Option<nat>)
    ensures r.Some? <==> AnyBlocks(slots, address, end)
    ensures r.Some? ==> r.value > address
  {
    if slots == [] then None
    else
      var rest := BlockingEnd(slots[..|slots| - 1], address, end);
      var last := slots[|slots| - 1];
      assert AnyBlocks(slots, address, end) <==> AnyBlocks(slots[..|slots| - 1], address, end) || Blocks(last, address, end) by {
        BlocksSplit(slots, address, end);
      }
      if !Blocks(last, address, end) then rest
      else if rest.Some? && rest.value > last.value.extent.End() then rest
      else Some(last.value.extent.End())
  }

  lemma BlocksSplit(slots: Slots, address: nat, end: nat)
    requires slots != []
    ensures AnyBlocks(slots, address, end) <==> AnyBlocks(slots[..|slots| - 1], address, end) || Blocks(slots[|slots| - 1], address, end)
  {
    hide Blocks;
    var rest := slots[..|slots| - 1];
    if AnyBlocks(rest, address, end) {
      var i :| 0 <= i < |rest| && Blocks(rest[i], address, end);
      assert slots[i] == rest[i];
    }
    if AnyBlocks(slots, address, end) {
      var i :| 0 <= i < |slots| && Blocks(slots[i], address, end);
      assert i < |rest| ==> rest[i] == slots[i];
    }
  }

  /** The loop of allocate, from a candidate on. */
  function Search(l: Ledger, candidate: u64, bytes: u64, alignment: u64): Result<u64, Error>
    requires IsPowerOfTwo(alignment) && bytes > 0
    decreases if candidate < l.aperture.End() then l.aperture.End() - candidate else 0
  {
    var end := candidate + bytes;
    if !Fits64(end) then Err(ArithmeticOverflow)
    else if end > l.aperture.End() then Err(NoSpace)
    else
      var blocking := BlockingEnd(l.slots, candidate, end);
      if blocking.None? then Ok(candidate)
      else if !Fits64(blocking.value) then Err(ArithmeticOverflow)
      else
        var next :- AlignUp(blocking.value, alignment);
        Search(l, next, bytes, alignment)
  }

  function Allocate(l: Ledger, bytes: u64, alignment: u64, purpose: Purpose): (Ledger, Result<Token, Error>) {
    var e := RequestError(bytes, alignment);
    if e.Some? then (l, Err(e.value))
    else if FreeSlot(l.slots).None? then (l, Err(ReservationLimit))
    else if !Fits64(l.aperture.address) then (l, Err(ArithmeticOverflow))
    else
      var first := AlignUp(l.aperture.address, alignment);
      if first.Err? then (l, Err(first.error))
      else
        var found := Search(l, first.value, bytes, alignment);
        if found.Err? then (l, Err(found.error)) else Reserve(l, found.value, bytes, alignment, purpose)
  }

  /** The slot of a live token. */
  function SlotOf(l: Ledger, token: Token): (r: Result<nat, Error>)
    ensures r.Ok? ==> Live(l, r.value) && l.slots[r.value].value.token == token
  {
    if token.owner != l.owner then Err(ForeignOwner)
    else
      var at := SlotFrom(l.slots, token, 0);
      if at.None? then Err(ReleasedReservation) else Ok(at.value)
  }

  function SlotFrom(slots: Slots, token: Token, i: nat): (r: Option<nat>)
    requires i <= |slots|
    ensures r.Some? ==> i <= r.value < |slots| && slots[r.value].Some? && slots[r.value].value.token == token
    ensures r.None? ==> forall j :: i <= j < |slots| && slots[j].Some? ==> slots[j].value.token != token
    decreases |slots| - i
  {
    if i == |slots| then None
    else if slots[i].Some? && slots[i].value.token == token then Some(i)
    else SlotFrom(slots, token, i + 1)
  }

  function Release(l: Ledger, token: Token): (Ledger, Result<(), Error>) {
    var slot := SlotOf(l, token);
    if slot.Err? then (l, Err(slot.error))
    else if !Fits64(l.generation + 1) then (l, Err(GenerationExhausted))
    else (l.(slots := l.slots[slot.value := None], generation := l.generation + 1), Ok(()))
  }

  /** Where `bytes` bytes at `offset` of a reservation stand in the backing. */
  function RangeStart(l: Ledger, record: Record, offset: nat, bytes: nat): Result<nat, Error> {
    if !Fits64(offset + bytes) then Err(ArithmeticOverflow)
    else if offset + bytes > record.extent.bytes then Err(DestinationCapacity)
    else if record.extent.address < l.aperture.address then Err(ArithmeticOverflow)
    else
      var start := record.extent.address - l.aperture.address + offset;
      if !Fits64(start + bytes) then Err(ArithmeticOverflow)
      else if start + bytes > l.aperture.bytes then Err(OutsideAperture)
      else Ok(start)
  }

  /** The bytes of a live reservation. */
  function ReadBytes(l: Ledger, token: Token): Result<seq<byte>, Error>
    requires l.aperture.bytes == |l.ram|
  {
    var slot :- SlotOf(l, token);
    var record := l.slots[slot].value;
    var start :- RangeStart(l, record, 0, record.extent.bytes);
    Ok(l.ram[start..start + record.extent.bytes])
  }

  function CopyInto(l: Ledger, token: Token, offset: nat, data: seq<byte>): (Ledger, Result<(), Error>)
    requires l.aperture.bytes == |l.ram|
  {
    var slot := SlotOf(l, token);
    if slot.Err? then (l, Err(slot.error)) else
    var record := l.slots[slot.value].value;
    if record.purpose == RuntimeDeviceTree then (l, Err(WrongPurpose)) else
    var start := RangeStart(l, record, offset, |data|);
    if start.Err? then (l, Err(start.error))
    else if !Fits64(l.generation + 1) then (l, Err(GenerationExhausted))
    else (l.(ram := Store(l.ram, start.value, data), generation := l.generation + 1), Ok(()))
  }

  function StampError(l: Ledger, stamp: Stamp): Option<Error> {
    if stamp.owner != l.owner then Some(ForeignOwner)
    else if stamp.generation != l.generation then Some(StaleSnapshot)
    else None
  }

  /** Where a device tree of `bytes` bytes goes. */
  function TreeStart(l: Ledger, token: Token, bytes: nat): Result<nat, Error> {
    var slot :- SlotOf(l, token);
    var record := l.slots[slot].value;
    if record.purpose != RuntimeDeviceTree then Err(WrongPurpose)
    else if record.extent.address % 4 != 0 then Err(UnalignedAddress)
    else RangeStart(l, record, 0, bytes)
  }

  function Bind(l: Ledger, stamp: Stamp, destination: Token, tree: seq<byte>): Result<Prepared, Error> {
    if StampError(l, stamp).Some? then Err(StampError(l, stamp).value) else
    var _ :- TreeStart(l, destination, |tree|);
    Ok(Prepared(tree, stamp, destination))
  }

  function Commit(l: Ledger, prepared: Prepared): (Ledger, Result<(), Error>)
    requires l.aperture.bytes == |l.ram|
  {
    if StampError(l, prepared.stamp).Some? then (l, Err(StampError(l, prepared.stamp).value)) else
    var start := TreeStart(l, prepared.destination, |prepared.tree|);
    if start.Err? then (l, Err(start.error))
    else if !Fits64(l.generation + 1) then (l, Err(GenerationExhausted))
    else (l.(ram := Store(l.ram, start.value, prepared.tree), generation := l.generation + 1), Ok(()))
  }

  /** An exclusive loan: whatever the borrower leaves in memory, after the generation has moved on. */
  function Loan(l: Ledger, left: seq<byte>): (Ledger, Result<(), Error>) {
    if !Fits64(l.generation + 1) then (l, Err(GenerationExhausted))
    else (l.(ram := if |left| == |l.ram| then left else l.ram, generation := l.generation + 1), Ok(()))
  }

  //////////////////////////////////////////////////////////////////////////////
  // Every operation keeps a ledger sound
  //////////////////////////////////////////////////////////////////////////////

  lemma UnblockedIsDisjoint(slots: Slots, address: nat, end: nat, i: nat)
    requires !AnyBlocks(slots, address, end) && address < end
    requires i < |slots| && slots[i].Some? && slots[i].value.extent.bytes > 0
    ensures Disjoint(Extent(address, end - address), slots[i].value.extent)
  {
    assert !Blocks(slots[i], address, end);
  }

  lemma ReserveSound(l: Ledger, address: u64, bytes: u64, alignment: u64, purpose: Purpose)
    requires Sound(l)
    ensures Sound(Reserve(l, address, bytes, alignment, purpose).0)
  {
    hide AnyBlocks, FreeSlot, FreeSlotFrom, IsPowerOfTwo;
    if ReserveError(l, address, bytes, alignment).None? {
      var slot := FreeSlot(l.slots).value;
      var m := Reserve(l, address, bytes, alignment, purpose).0;
      var record := m.slots[slot].value;
      forall i: nat | Live(m, i) ensures RecordOk(m, m.slots[i].value) {
        assert i != slot ==> Live(l, i) && m.slots[i] == l.slots[i];
      }
      forall i: nat | Live(m, i) && i != slot ensures Live(l, i) && m.slots[i] == l.slots[i] && Apart(m.slots[i].value, record) && Apart(record, m.slots[i].value) {
        assert Live(l, i) && RecordOk(l, l.slots[i].value);
        UnblockedIsDisjoint(l.slots, address, address + bytes, i);
      }
    }
  }

  lemma ReleaseSound(l: Ledger, token: Token)
    requires Sound(l)
    ensures Sound(Release(l, token).0)
  {
    hide SlotFrom;
    var m := Release(l, token).0;
    forall i: nat | Live(m, i) ensures Live(l, i) && m.slots[i] == l.slots[i] {
    }
    forall i: nat | Live(m, i) ensures RecordOk(m, m.slots[i].value) {
      assert RecordOk(l, l.slots[i].value);
    }
  }

  /** A later generation and other bytes leave the reservations as they are. */
  lemma TouchSound(l: Ledger, ram: seq<byte>)
    requires Sound(l) && |ram| == |l.ram| && Fits64(l.generation + 1)
    ensures Sound(l.(ram := ram, generation := l.generation + 1))
  {
    var m := l.(ram := ram, generation := l.generation + 1);
    forall i: nat | Live(m, i) ensures Live(l, i) && RecordOk(m, m.slots[i].value) {
      assert Live(l, i) && RecordOk(l, l.slots[i].value);
    }
    forall i: nat, j: nat | Live(m, i) && Live(m, j) && i != j ensures Apart(m.slots[i].value, m.slots[j].value) {
      assert Live(l, i) && Live(l, j);
    }
  }

  //////////////////////////////////////////////////////////////////////////////
  // The aligned first fit
  //////////////////////////////////////////////////////////////////////////////

  /** A mapped, aligned, unreserved place for a request. */
  predicate FreeAt(l: Ledger, a: nat, bytes: nat, alignment: nat) {
    && alignment > 0 && a % alignment == 0
    && l.aperture.address <= a && a + bytes <= l.aperture.End()
    && !AnyBlocks(l.slots, a, a + bytes)
  }

  ghost predicate NoneBefore(l: Ledger, candidate: nat, bytes: nat, alignment: nat) {
    forall a: nat :: FreeAt(l, a, bytes, alignment) ==> candidate <= a
  }

  ghost predicate LeastFree(l: Ledger, a: nat, bytes: nat, alignment: nat) {
    FreeAt(l, a, bytes, alignment) && NoneBefore(l, a, bytes, alignment)
  }

  ghost predicate NoneFree(l: Ledger, bytes: nat, alignment: nat) {
    forall a: nat :: !FreeAt(l, a, bytes, alignment)
  }

  /** The furthest blocking end is the end of a blocking reservation. */
  lemma {:induction false} BlockingEndWitness(slots: Slots, address: nat, end: nat) returns (i: nat)
    requires BlockingEnd(slots, address, end).Some?
    ensures i < |slots| && slots[i].Some? && Blocks(slots[i], address, end) && slots[i].value.extent.End() == BlockingEnd(slots, address, end).value
  {
    var last := |slots| - 1;
    if slots[last].Some? && Blocks(slots[last], address, end) && BlockingEnd(slots, address, end) == Some(slots[last].value.extent.End()) {
      i := last;
    } else {
      i := BlockingEndWitness(slots[..last], address, end);
    }
  }

  /** Whatever is free from a blocked candidate on lies beyond the furthest blocking end. */
  lemma FreeBeyondBlocking(l: Ledger, candidate: nat, bytes: nat, alignment: nat, b: nat)
    requires BlockingEnd(l.slots, candidate, candidate + bytes).Some?
    requires FreeAt(l, b, bytes, alignment) && candidate <= b
    ensures BlockingEnd(l.slots, candidate, candidate + bytes).value <= b
  {
    hide BlockingEnd;
    var i := BlockingEndWitness(l.slots, candidate, candidate + bytes);
    assert !Blocks(l.slots[i], b, b + bytes);
  }

  lemma BlockingEndInside(l: Ledger, candidate: nat, end: nat)
    requires Sound(l) && BlockingEnd(l.slots, candidate, end).Some?
    ensures l.aperture.address <= BlockingEnd(l.slots, candidate, end).value <= l.aperture.End()
  {
    hide BlockingEnd;
    var i := BlockingEndWitness(l.slots, candidate, end);
    assert Live(l, i) && RecordOk(l, l.slots[i].value);
  }

  lemma NextCandidate(l: Ledger, at: u64, bytes: nat, alignment: u64)
    requires IsPowerOfTwo(alignment) && NoneBefore(l, at, bytes, alignment) && Fits64(l.aperture.End())
    ensures AlignUp(at, alignment).Ok? ==> NoneBefore(l, AlignUp(at, alignment).value, bytes, alignment)
    ensures AlignUp(at, alignment).Err? ==> NoneFree(l, bytes, alignment)
  {
    hide AlignUp, IsPowerOfTwo;
    forall a: nat | FreeAt(l, a, bytes, alignment) ensures AlignUp(at, alignment).Ok? && AlignUp(at, alignment).value <= a {
      hide AnyBlocks;
      AlignUpLeast(at, alignment, a);
    }
  }

  lemma {:induction false} SearchExact(l: Ledger, candidate: u64, bytes: u64, alignment: u64)
    requires Sound(l) && IsPowerOfTwo(alignment) && alignment > 0 && bytes > 0
    requires candidate % alignment == 0 && l.aperture.address <= candidate
    requires NoneBefore(l, candidate, bytes, alignment)
    ensures var r := Search(l, candidate, bytes, alignment);
            match r
            case Ok(a) => LeastFree(l, a, bytes, alignment)
            case Err(e) => (e == NoSpace || e == ArithmeticOverflow) && NoneFree(l, bytes, alignment)
    decreases if candidate < l.aperture.End() then l.aperture.End() - candidate else 0
  {
    hide AlignUp, IsPowerOfTwo, BlockingEnd;
    var end := candidate + bytes;
    if end <= l.aperture.End() {
      var blocking := BlockingEnd(l.slots, candidate, end);
      if blocking.Some? {
        BlockingEndInside(l, candidate, end);
        forall b: nat | FreeAt(l, b, bytes, alignment) ensures blocking.value <= b {
          FreeBeyondBlocking(l, candidate, bytes, alignment, b);
        }
        NextCandidate(l, blocking.value, bytes, alignment);
        var next := AlignUp(blocking.value, alignment);
        if next.Ok? {
          SearchExact(l, next.value, bytes, alignment);
        }
      }
    } else {
      assert NoneFree(l, bytes, alignment);
    }
  }

  lemma SoundBounds(l: Ledger)
    requires Sound(l)
    ensures Fits64(l.aperture.End()) && l.generation < U64_LIMIT && l.aperture.bytes == |l.ram| > 0 && |l.slots| == MAX_RESERVATIONS
  {
  }

  lemma PowerPositive(a: nat)
    requires IsPowerOfTwo(a)
    ensures a > 0
  {
  }

  lemma AllocateSound(l: Ledger, bytes: u64, alignment: u64, purpose: Purpose)
    requires Sound(l)
    ensures Sound(Allocate(l, bytes, alignment, purpose).0)
  {
    hide Sound, Search, Reserve, AlignUp, IsPowerOfTwo;
    if Allocate(l, bytes, alignment, purpose).0 != l {
      var a := Search(l, AlignUp(l.aperture.address, alignment).value, bytes, alignment).value;
      ReserveSound(l, a, bytes, alignment, purpose);
    }
  }

  //////////////////////////////////////////////////////////////////////////////
  // What each operation does to the slots and the bytes
  //////////////////////////////////////////////////////////////////////////////

  ghost predicate LiveToken(l: Ledger, t: Token) {
    exists i: nat :: Live(l, i) && l.slots[i].value.token == t
  }

  /** A token this ledger issued at some time. */
  predicate Past(l: Ledger, t: Token) {
    t.owner == l.owner && t.serial <= l.generation
  }

  /** A lookup finds exactly the live tokens, and says of the others whose they were. */
  lemma SlotExact(l: Ledger, t: Token)
    requires Sound(l)
    ensures SlotOf(l, t).Ok? <==> LiveToken(l, t)
    ensures SlotOf(l, t).Err? ==> SlotOf(l, t).error == if t.owner == l.owner then ReleasedReservation else ForeignOwner
    ensures LiveToken(l, t) ==> Past(l, t)
  {
    hide SlotFrom;
    if LiveToken(l, t) {
      var i: nat :| Live(l, i) && l.slots[i].value.token == t;
      assert RecordOk(l, l.slots[i].value);
    }
  }

  /** The slot of a live token is the only one. */
  lemma OneSlot(l: Ledger, t: Token, i: nat)
    requires Sound(l) && Live(l, i) && l.slots[i].value.token == t
    ensures SlotOf(l, t) == Ok(i)
  {
    hide SlotFrom;
    assert RecordOk(l, l.slots[i].value);
    var j := SlotOf(l, t).value;
    assert Live(l, j);
  }

  function StartOf(l: Ledger, r: Record): int {
    r.extent.address - l.aperture.address
  }

  /** A reservation of the ledger. */
  ghost predicate Reserves(l: Ledger, r: Record) {
    exists i: nat :: Live(l, i) && l.slots[i].value == r
  }

  /** The owner, the aperture and the number of slots are as before, and one mutation has been counted. */
  predicate Moved(l: Ledger, m: Ledger) {
    m.owner == l.owner && m.aperture == l.aperture && |m.slots| == |l.slots| && |m.ram| == |l.ram| && m.generation == l.generation + 1
  }

  /** The bytes are as before and the slots are too, except that the first empty one holds the record. */
  ghost predicate Added(l: Ledger, m: Ledger, r: Record) {
    && Moved(l, m) && m.ram == l.ram
    && exists slot: nat :: slot < |l.slots| && AddedAt(l, m, r, slot)
  }

  ghost predicate AddedAt(l: Ledger, m: Ledger, r: Record, slot: nat)
    requires slot < |l.slots| == |m.slots|
  {
    && l.slots[slot].None? && m.slots[slot] == Some(r)
    && (forall i :: 0 <= i < slot ==> l.slots[i].Some?)
    && (forall i :: 0 <= i < |l.slots| && i != slot ==> m.slots[i] == l.slots[i])
  }

  /** The bytes are as before and the slots are too, except that the one that named the token is empty. */
  ghost predicate Emptied(l: Ledger, m: Ledger, t: Token) {
    && Moved(l, m) && m.ram == l.ram
    && forall i :: 0 <= i < |l.slots| ==> m.slots[i] == if l.slots[i].Some? && l.slots[i].value.token == t then None else l.slots[i]
  }

  /** The slots are as before, the data stands at a place of the backing, and every other byte is as before. */
  ghost predicate Written(l: Ledger, m: Ledger, at: int, data: seq<byte>) {
    && Moved(l, m) && m.slots == l.slots && 0 <= at && at + |data| <= |l.ram|
    && forall k :: 0 <= k < |l.ram| ==> m.ram[k] == if at <= k < at + |data| then data[k - at] else l.ram[k]
  }

  predicate CanMove(l: Ledger) {
    l.generation + 1 < U64_LIMIT
  }

  /** The reservation meets the bytes from `address` up to `end`. */
  ghost predicate Met(l: Ledger, address: nat, end: nat) {
    exists r :: Reserves(l, r) && address < r.extent.address + r.extent.bytes && r.extent.address < end
  }

  lemma MetExact(l: Ledger, address: nat, end: nat)
    ensures Met(l, address, end) <==> AnyBlocks(l.slots, address, end)
  {
    if AnyBlocks(l.slots, address, end) {
      var i :| 0 <= i < |l.slots| && Blocks(l.slots[i], address, end);
      assert Live(l, i) && Reserves(l, l.slots[i].value);
    }
    if Met(l, address, end) {
      var r :| Reserves(l, r) && address < r.extent.address + r.extent.bytes && r.extent.address < end;
      var i: nat :| Live(l, i) && l.slots[i].value == r;
      assert Blocks(l.slots[i], address, end);
    }
  }

  ghost predicate Full(l: Ledger) {
    forall i :: 0 <= i < |l.slots| ==> l.slots[i].Some?
  }

  /** Why a reservation is refused: the first of the conditions, in the order the errors are listed, that holds. */
  ghost predicate Refused(l: Ledger, address: nat, bytes: nat, alignment: nat, e: Error) {
    var invalid := bytes == 0;
    var odd := !invalid && !IsPowerOfTwo(alignment);
    var skew := !invalid && !odd && alignment > 0 && address % alignment != 0;
    var wraps := !invalid && !odd && !skew && address + bytes >= U64_LIMIT;
    var outside := !invalid && !odd && !skew && !wraps && !(l.aperture.address <= address && address + bytes <= l.aperture.address + l.aperture.bytes);
    var met := !invalid && !odd && !skew && !wraps && !outside && Met(l, address, address + bytes);
    var full := !invalid && !odd && !skew && !wraps && !outside && !met && Full(l);
    || (invalid && e == InvalidSize)
    || (odd && e == InvalidAlignment)
    || (skew && e == UnalignedAddress)
    || (wraps && e == ArithmeticOverflow)
    || (outside && e == OutsideAperture)
    || (met && e == Overlap)
    || (full && e == ReservationLimit)
    || (!invalid && !odd && !skew && !wraps && !outside && !met && !full && !CanMove(l) && e == GenerationExhausted)
  }

  /**
   A reservation succeeds exactly when it asks for bytes of the aperture that no reservation meets, on an
   alignment, with a slot to spare and the generation able to move; the first empty slot then holds it
   under a token of the new generation, and nothing else has changed. Otherwise nothing has.
   */
  lemma ReserveExact(l: Ledger, address: u64, bytes: u64, alignment: u64, purpose: Purpose)
    requires Sound(l)
    ensures var (m, r) := Reserve(l, address, bytes, alignment, purpose);
            && (r.Ok? <==>
                bytes > 0 && IsPowerOfTwo(alignment) && alignment > 0 && address % alignment == 0 && address + bytes < U64_LIMIT &&
                l.aperture.address <= address && address + bytes <= l.aperture.address + l.aperture.bytes &&
                !Met(l, address, address + bytes) && !Full(l) && CanMove(l))
            && (r.Ok? ==>
                r.value == Token(l.owner, l.generation + 1) && !LiveToken(l, r.value) &&
                Added(l, m, Record(r.value, Extent(address, bytes), alignment, purpose)))
            && (r.Err? ==> m == l && Refused(l, address, bytes, alignment, r.error))
  {
    hide Sound, IsPowerOfTwo, FreeSlotFrom, AnyBlocks, LiveToken, SlotOf, Met;
    SoundBounds(l);
    MetExact(l, address, address + bytes);
    SlotExact(l, Token(l.owner, l.generation + 1));
    if IsPowerOfTwo(alignment) {
      PowerPositive(alignment);
    }
    FreeSlotFirst(l.slots);
    var (m, r) := Reserve(l, address, bytes, alignment, purpose);
    if r.Ok? {
      var slot := FreeSlot(l.slots).value;
      assert AddedAt(l, m, Record(r.value, Extent(address, bytes), alignment, purpose), slot);
    }
  }

  lemma FreeSlotFirst(slots: Slots)
    ensures FreeSlot(slots).Some? ==> forall i :: 0 <= i < FreeSlot(slots).value ==> slots[i].Some?
  {
    hide FreeSlotFrom;
  }

  /** Of the reservations of a ledger, exactly the new one is added. */
  lemma AddedReserves(l: Ledger, m: Ledger, r: Record, s: Record)
    requires Added(l, m, r)
    ensures Reserves(m, s) <==> Reserves(l, s) || s == r
  {
    var slot: nat :| slot < |l.slots| && AddedAt(l, m, r, slot);
    if Reserves(m, s) {
      var i: nat :| Live(m, i) && m.slots[i].value == s;
      assert i != slot ==> Live(l, i) && l.slots[i].value == s;
    }
    if Reserves(l, s) {
      var i: nat :| Live(l, i) && l.slots[i].value == s;
      assert Live(m, i) && m.slots[i].value == s;
    }
    assert Live(m, slot);
  }

  /**
   The allocator takes the lowest place there is: with a valid request and a slot to spare it reports
   no space or overflow exactly when there is no place, and its final reservation can fail only on an
   exhausted generation.
   */
  lemma AllocateExact(l: Ledger, bytes: u64, alignment: u64, purpose: Purpose)
    requires Sound(l)
    ensures var (m, r) := Allocate(l, bytes, alignment, purpose);
            && (r.Err? ==> m == l)
            && (if bytes == 0 then r == Err(InvalidSize)
                else if !IsPowerOfTwo(alignment) then r == Err(InvalidAlignment)
                else if Full(l) then r == Err(ReservationLimit)
                else if NoneFree(l, bytes, alignment) then r == Err(NoSpace) || r == Err(ArithmeticOverflow)
                else if !CanMove(l) then r == Err(GenerationExhausted)
                else r == Ok(Token(l.owner, l.generation + 1)) && !LiveToken(l, r.value) &&
                     exists a: nat :: LeastFree(l, a, bytes, alignment) && Added(l, m, Record(r.value, Extent(a, bytes), alignment, purpose)))
  {
    hide Search, AlignUp, IsPowerOfTwo, FreeSlotFrom, AnyBlocks, Sound, Reserve, LiveToken, Added, Refused, Met;
    if RequestError(bytes, alignment).None? && FreeSlot(l.slots).Some? {
      SoundBounds(l);
      var at := l.aperture.address;
      PowerPositive(alignment);
      NextCandidate(l, at, bytes, alignment);
      var first := AlignUp(at, alignment);
      if first.Ok? {
        SearchExact(l, first.value, bytes, alignment);
        var found := Search(l, first.value, bytes, alignment);
        if found.Ok? {
          assert FreeAt(l, found.value, bytes, alignment) && LeastFree(l, found.value, bytes, alignment);
          assert !NoneFree(l, bytes, alignment);
          ReserveAtFree(l, found.value, bytes, alignment, purpose);
        }
      }
    }
  }

  lemma ReserveAtFree(l: Ledger, a: u64, bytes: u64, alignment: u64, purpose: Purpose)
    requires Sound(l) && bytes > 0 && IsPowerOfTwo(alignment) && !Full(l) && FreeAt(l, a, bytes, alignment)
    ensures var (m, r) := Reserve(l, a, bytes, alignment, purpose);
            if !CanMove(l) then m == l && r == Err(GenerationExhausted)
            else r == Ok(Token(l.owner, l.generation + 1)) && !LiveToken(l, r.value) &&
                 Added(l, m, Record(r.value, Extent(a, bytes), alignment, purpose))
  {
    hide Sound, IsPowerOfTwo, AnyBlocks, LiveToken, Added, Met, Full, Reserve;
    SoundBounds(l);
    ReserveExact(l, a, bytes, alignment, purpose);
    MetExact(l, a, a + bytes);
    var (m, r) := Reserve(l, a, bytes, alignment, purpose);
    assert r.Err? ==> Refused(l, a, bytes, alignment, r.error);
    assert r.Err? ==> r.error == GenerationExhausted;
  }

  /**
   A release succeeds exactly when the token is live and the generation can move. The one slot that
   named it is then empty, every other slot and every byte is as before, and the token is dead.
   */
  lemma ReleaseExact(l: Ledger, t: Token)
    requires Sound(l)
    ensures var (m, r) := Release(l, t);
            && (r.Ok? <==> LiveToken(l, t) && CanMove(l))
            && (r.Ok? ==> Emptied(l, m, t) && !LiveToken(m, t) && forall s :: Reserves(m, s) <==> Reserves(l, s) && s.token != t)
            && (r.Err? ==> m == l && r.error == if LiveToken(l, t) then GenerationExhausted else if t.owner == l.owner then ReleasedReservation else ForeignOwner)
  {
    hide Sound, SlotOf, LiveToken, Reserves;
    SoundBounds(l);
    SlotExact(l, t);
    var (m, r) := Release(l, t);
    if r.Ok? {
      var slot := SlotOf(l, t).value;
      forall i | 0 <= i < |l.slots| && l.slots[i].Some? && l.slots[i].value.token == t ensures i == slot {
        OneSlot(l, t, i);
      }
      forall s ensures Reserves(m, s) <==> Reserves(l, s) && s.token != t {
        EmptiedReserves(l, m, t, s);
      }
      EmptiedIsDead(l, m, t);
    }
  }

  lemma EmptiedReserves(l: Ledger, m: Ledger, t: Token, s: Record)
    requires Emptied(l, m, t)
    ensures Reserves(m, s) <==> Reserves(l, s) && s.token != t
  {
    if Reserves(m, s) {
      var i: nat :| Live(m, i) && m.slots[i].value == s;
      assert Live(l, i) && l.slots[i].value == s;
    }
    if Reserves(l, s) && s.token != t {
      var i: nat :| Live(l, i) && l.slots[i].value == s;
      assert Live(m, i) && m.slots[i].value == s;
    }
  }

  lemma EmptiedIsDead(l: Ledger, m: Ledger, t: Token)
    requires Emptied(l, m, t)
    ensures !LiveToken(m, t)
  {
    if i: nat :| Live(m, i) && m.slots[i].value.token == t {
      assert m.slots[i] == l.slots[i];
    }
  }

  /** What a release gives up can be reserved again. */
  lemma ReleasedPlaceIsFree(l: Ledger, r: Record, alignment: u64, purpose: Purpose)
    requires Sound(l) && Reserves(l, r) && l.generation + 2 < U64_LIMIT
    requires IsPowerOfTwo(alignment) && alignment > 0 && r.extent.address % alignment == 0
    ensures Release(l, r.token).1.Ok?
    ensures r.extent.address < U64_LIMIT && r.extent.bytes < U64_LIMIT
    ensures Reserve(Release(l, r.token).0, r.extent.address, r.extent.bytes, alignment, purpose).1.Ok?
  {
    hide IsPowerOfTwo, Release, Reserve, Refused, Added, Met, Full, Reserves;
    ReservesLive(l, r);
    ReleaseExact(l, r.token);
    ReleaseSound(l, r.token);
    var m := Release(l, r.token).0;
    ReserveExact(m, r.extent.address, r.extent.bytes, alignment, purpose);
    EmptiedNotFull(l, m, r);
    if Met(m, r.extent.address, r.extent.End()) {
      ReleasedUnmet(l, m, r);
    }
  }

  lemma ReservesLive(l: Ledger, r: Record)
    requires Sound(l) && Reserves(l, r)
    ensures LiveToken(l, r.token) && RecordOk(l, r)
  {
    var i: nat :| Live(l, i) && l.slots[i].value == r;
    assert RecordOk(l, l.slots[i].value);
  }

  lemma EmptiedNotFull(l: Ledger, m: Ledger, r: Record)
    requires Emptied(l, m, r.token) && Reserves(l, r)
    ensures !Full(m)
  {
    var i: nat :| Live(l, i) && l.slots[i].value == r;
    assert m.slots[i].None?;
  }

  lemma ReleasedUnmet(l: Ledger, m: Ledger, r: Record)
    requires Sound(l) && Reserves(l, r) && forall s :: Reserves(m, s) <==> Reserves(l, s) && s.token != r.token
    ensures !Met(m, r.extent.address, r.extent.End())
  {
    if s :| Reserves(m, s) && r.extent.address < s.extent.address + s.extent.bytes && s.extent.address < r.extent.End() {
      assert Reserves(l, s) && s.token != r.token;
      var i: nat :| Live(l, i) && l.slots[i].value == r;
      var j: nat :| Live(l, j) && l.slots[j].value == s;
      assert Apart(l.slots[i].value, l.slots[j].value);
    }
  }

  /** The reservation a live token names. */
  ghost predicate Names(l: Ledger, t: Token, r: Record) {
    Reserves(l, r) && r.token == t
  }

  lemma NamesSlot(l: Ledger, t: Token, r: Record)
    requires Sound(l) && Names(l, t, r)
    ensures SlotOf(l, t).Ok? && l.slots[SlotOf(l, t).value] == Some(r) && RecordOk(l, r) && LiveToken(l, t)
  {
    hide SlotOf;
    var i: nat :| Live(l, i) && l.slots[i].value == r;
    OneSlot(l, t, i);
    assert RecordOk(l, l.slots[i].value);
  }

  lemma LiveNames(l: Ledger, t: Token) returns (r: Record)
    requires LiveToken(l, t)
    ensures Names(l, t, r)
  {
    var i: nat :| Live(l, i) && l.slots[i].value.token == t;
    r := l.slots[i].value;
    assert Live(l, i) && l.slots[i].value == r;
  }

  /** Inside a live reservation only its own size is in the way. */
  lemma RangeExact(l: Ledger, r: Record, offset: nat, bytes: nat)
    requires Sound(l) && Reserves(l, r)
    ensures var s := RangeStart(l, r, offset, bytes);
            && (s.Ok? <==> offset + bytes <= r.extent.bytes)
            && (s.Ok? ==> s.value == r.extent.address - l.aperture.address + offset && s.value + bytes <= |l.ram|)
            && (s.Err? ==> s.error == if offset + bytes >= U64_LIMIT then ArithmeticOverflow else DestinationCapacity)
  {
    hide Reserves;
    ReservesLive(l, r);
  }

  /** A live token reads the bytes of its reservation, from its address for its size; no other token reads. */
  lemma ReadExact(l: Ledger, t: Token)
    requires Sound(l)
    ensures l.aperture.bytes == |l.ram|
    ensures var b := ReadBytes(l, t);
            && (b.Ok? <==> LiveToken(l, t))
            && (b.Err? ==> b.error == if t.owner == l.owner then ReleasedReservation else ForeignOwner)
            && (forall r :: b.Ok? && Names(l, t, r) ==>
                  |b.value| == r.extent.bytes && l.aperture.address <= r.extent.address && r.extent.End() <= l.aperture.End() &&
                  forall k :: 0 <= k < r.extent.bytes ==> b.value[k] == l.ram[r.extent.address + k - l.aperture.address])
  {
    hide Sound, SlotOf, RangeStart, Names, LiveToken;
    SoundBounds(l);
    SlotExact(l, t);
    if LiveToken(l, t) {
      var r := LiveNames(l, t);
      NamesSlot(l, t, r);
      NamesReserves(l, t, r);
      RangeExact(l, r, 0, r.extent.bytes);
      forall s | Names(l, t, s) ensures s == r {
        NamesSlot(l, t, s);
      }
    }
  }

  lemma NamesReserves(l: Ledger, t: Token, r: Record)
    requires Names(l, t, r)
    ensures Reserves(l, r)
  {
  }

  /** Copying is refused, and changes nothing, or leaves the data at the offset of the reservation and changes no other byte. */
  lemma CopyExact(l: Ledger, t: Token, offset: nat, data: seq<byte>)
    requires Sound(l)
    ensures l.aperture.bytes == |l.ram|
    ensures var (m, c) := CopyInto(l, t, offset, data);
            && (c.Err? ==> m == l)
            && (!LiveToken(l, t) ==> c == Err(if t.owner == l.owner then ReleasedReservation else ForeignOwner))
            && (forall r :: Names(l, t, r) ==>
                  if r.purpose == RuntimeDeviceTree then c == Err(WrongPurpose)
                  else if offset + |data| >= U64_LIMIT then c == Err(ArithmeticOverflow)
                  else if offset + |data| > r.extent.bytes then c == Err(DestinationCapacity)
                  else if !CanMove(l) then c == Err(GenerationExhausted)
                  else c == Ok(()) && Written(l, m, r.extent.address - l.aperture.address + offset, data))
  {
    hide Sound, SlotOf, RangeStart, Names, LiveToken, Store;
    SoundBounds(l);
    SlotExact(l, t);
    if LiveToken(l, t) {
      forall r | Names(l, t, r)
        ensures var (m, c) := CopyInto(l, t, offset, data);
                if r.purpose == RuntimeDeviceTree then c == Err(WrongPurpose)
                else if offset + |data| >= U64_LIMIT then c == Err(ArithmeticOverflow)
                else if offset + |data| > r.extent.bytes then c == Err(DestinationCapacity)
                else if !CanMove(l) then c == Err(GenerationExhausted)
                else c == Ok(()) && Written(l, m, r.extent.address - l.aperture.address + offset, data)
      {
        NamesSlot(l, t, r);
        NamesReserves(l, t, r);
        RangeExact(l, r, offset, |data|);
      }
    }
    forall r | Names(l, t, r) ensures LiveToken(l, t) {
      NamesSlot(l, t, r);
    }
  }

  /** A stamp that fits, a live device-tree reservation on four bytes with room for the tree. */
  ghost predicate Fitting(l: Ledger, stamp: Stamp, t: Token, r: Record, bytes: nat) {
    && stamp == Stamp(l.owner, l.generation) && Names(l, t, r)
    && r.purpose == RuntimeDeviceTree && r.extent.address % 4 == 0 && bytes <= r.extent.bytes
  }

  ghost predicate Ready(l: Ledger, stamp: Stamp, t: Token, bytes: nat) {
    exists r :: Fitting(l, stamp, t, r, bytes)
  }

  /** Why a tree is not taken: the stamp first, then the token, the purpose, the address and the size. */
  ghost predicate NotReady(l: Ledger, stamp: Stamp, t: Token, bytes: nat, e: Error) {
    if stamp.owner != l.owner then e == ForeignOwner
    else if stamp.generation != l.generation then e == StaleSnapshot
    else if !LiveToken(l, t) then e == if t.owner == l.owner then ReleasedReservation else ForeignOwner
    else forall r :: Names(l, t, r) ==>
           e == if r.purpose != RuntimeDeviceTree then WrongPurpose
                else if r.extent.address % 4 != 0 then UnalignedAddress
                else if bytes >= U64_LIMIT then ArithmeticOverflow
                else DestinationCapacity
  }

  lemma TreeStartExact(l: Ledger, stamp: Stamp, t: Token, bytes: nat)
    requires Sound(l)
    ensures StampError(l, stamp).None? && TreeStart(l, t, bytes).Ok? <==> Ready(l, stamp, t, bytes)
    ensures StampError(l, stamp).Some? ==> NotReady(l, stamp, t, bytes, StampError(l, stamp).value)
    ensures StampError(l, stamp).None? && TreeStart(l, t, bytes).Err? ==> NotReady(l, stamp, t, bytes, TreeStart(l, t, bytes).error)
    ensures forall r :: Fitting(l, stamp, t, r, bytes) ==> TreeStart(l, t, bytes) == Ok(r.extent.address - l.aperture.address)
  {
    hide Sound, SlotOf, RangeStart, Names, LiveToken;
    SlotExact(l, t);
    forall r | Names(l, t, r)
      ensures LiveToken(l, t) && l.slots[SlotOf(l, t).value] == Some(r)
      ensures SlotOf(l, t).Ok?
      ensures var s := RangeStart(l, r, 0, bytes);
              && (s.Ok? <==> bytes <= r.extent.bytes)
              && (s.Ok? ==> s.value == r.extent.address - l.aperture.address)
              && (s.Err? ==> s.error == if bytes >= U64_LIMIT then ArithmeticOverflow else DestinationCapacity)
    {
      NamesSlot(l, t, r);
      NamesReserves(l, t, r);
      RangeExact(l, r, 0, bytes);
    }
    if LiveToken(l, t) {
      var r := LiveNames(l, t);
      assert Ready(l, stamp, t, bytes) <==> Fitting(l, stamp, t, r, bytes);
    }
  }

  /** A tree is bound exactly when it could be committed now; what is bound is the tree, the stamp and the token given. */
  lemma BindExact(l: Ledger, stamp: Stamp, t: Token, tree: seq<byte>)
    requires Sound(l)
    ensures var b := Bind(l, stamp, t, tree);
            && (b.Ok? <==> Ready(l, stamp, t, |tree|))
            && (b.Ok? ==> b.value == Prepared(tree, stamp, t))
            && (b.Err? ==> NotReady(l, stamp, t, |tree|, b.error))
  {
    hide Sound, StampError, TreeStart, Ready, NotReady, Fitting;
    TreeStartExact(l, stamp, t, |tree|);
  }

  /** A commit succeeds exactly when the tree could be bound now and the generation can move; it then writes the tree at the start of the reservation. */
  lemma CommitExact(l: Ledger, p: Prepared)
    requires Sound(l)
    ensures l.aperture.bytes == |l.ram|
    ensures var (m, c) := Commit(l, p);
            && (c.Ok? <==> Ready(l, p.stamp, p.destination, |p.tree|) && CanMove(l))
            && (c.Ok? ==> forall r :: Names(l, p.destination, r) ==> Written(l, m, r.extent.address - l.aperture.address, p.tree))
            && (c.Err? ==> m == l)
            && (c.Err? ==> if Ready(l, p.stamp, p.destination, |p.tree|) then c.error == GenerationExhausted
                           else NotReady(l, p.stamp, p.destination, |p.tree|, c.error))
  {
    hide Sound, StampError, TreeStart, NotReady, Names, LiveToken, Store;
    SoundBounds(l);
    TreeStartExact(l, p.stamp, p.destination, |p.tree|);
    var (m, c) := Commit(l, p);
    if c.Ok? {
      var r :| Fitting(l, p.stamp, p.destination, r, |p.tree|);
      NamesSlot(l, p.destination, r);
      forall s | Names(l, p.destination, s) ensures s == r {
        NamesSlot(l, p.destination, s);
      }
    }
  }

  /** A loan moves the generation on, keeps every slot, and leaves the bytes as the borrower left them. */
  lemma LoanExact(l: Ledger, left: seq<byte>)
    requires Sound(l) && |left| == |l.ram|
    ensures var (m, c) := Loan(l, left);
            if CanMove(l) then c == Ok(()) && Moved(l, m) && m.slots == l.slots && m.ram == left
            else m == l && c == Err(GenerationExhausted)
  {
  }

  //////////////////////////////////////////////////////////////////////////////
  // Runs of one ledger
  //////////////////////////////////////////////////////////////////////////////

  /** A call a holder of the ledger can make. A prepared tree has passed the validator. */
  datatype Step =
    | ReserveAt(address: u64, bytes: u64, alignment: u64, purpose: Purpose)
    | AllocateAny(bytes: u64, alignment: u64, purpose: Purpose)
    | ReleaseToken(token: Token)
    | Copy(token: Token, offset: nat, data: seq<byte>)
    | CommitTree(prepared: Prepared)
    | Lend(left: seq<byte>)

  /** What a call returns: a token from a reservation, nothing otherwise; or nothing was called. */
  datatype Outcome = Issued(token: Token) | Done | Failed(error: Error) | Uncalled

  function OfToken(r: Result<Token, Error>): Outcome {
    if r.Ok? then Issued(r.value) else Failed(r.error)
  }

  function OfUnit(r: Result<(), Error>): Outcome {
    if r.Ok? then Done else Failed(r.error)
  }

  predicate Possible(s: Step) {
    s.CommitTree? ==> FlatDt.Accepts(s.prepared.tree)
  }

  function Apply(l: Ledger, s: Step): (Ledger, Outcome)
    requires l.aperture.bytes == |l.ram|
  {
    match s
    case ReserveAt(address, bytes, alignment, purpose) =>
      var (m, r) := Reserve(l, address, bytes, alignment, purpose); (m, OfToken(r))
    case AllocateAny(bytes, alignment, purpose) =>
      var (m, r) := Allocate(l, bytes, alignment, purpose); (m, OfToken(r))
    case ReleaseToken(token) =>
      var (m, r) := Release(l, token); (m, OfUnit(r))
    case Copy(token, offset, data) =>
      var (m, r) := CopyInto(l, token, offset, data); (m, OfUnit(r))
    case CommitTree(prepared) =>
      var (m, r) := Commit(l, prepared); (m, OfUnit(r))
    case Lend(left) =>
      var (m, r) := Loan(l, left); (m, OfUnit(r))
  }

  /** What one call does to the identity of a ledger: a failed call does nothing, a successful one is counted. */
  lemma StepEffect(l: Ledger, s: Step)
    requires Sound(l)
    ensures var (m, r) := Apply(l, s);
            && Sound(m) && m.owner == l.owner && m.aperture == l.aperture
            && (r.Failed? ==> m == l)
            && !r.Uncalled? && (!r.Failed? ==> m.generation == l.generation + 1)
            && (r.Issued? <==> !r.Failed? && (s.ReserveAt? || s.AllocateAny?))
            && (r.Issued? ==> r.token == Token(l.owner, m.generation))
  {
    hide Sound, Search, AlignUp, IsPowerOfTwo, FreeSlot, AnyBlocks, SlotOf, RangeStart, StampError, TreeStart, RequestError;
    SoundBounds(l);
    match s
    case ReserveAt(address, bytes, alignment, purpose) => ReserveSound(l, address, bytes, alignment, purpose);
    case AllocateAny(bytes, alignment, purpose) => AllocateSound(l, bytes, alignment, purpose);
    case ReleaseToken(token) => ReleaseSound(l, token);
    case Copy(token, offset, data) => if Apply(l, s).1.Done? { TouchSound(l, Apply(l, s).0.ram); }
    case CommitTree(prepared) => if Apply(l, s).1.Done? { TouchSound(l, Apply(l, s).0.ram); }
    case Lend(left) => if Apply(l, s).1.Done? { TouchSound(l, Apply(l, s).0.ram); }
  }

  //////////////////////////////////////////////////////////////////////////////
  // Tokens
  //////////////////////////////////////////////////////////////////////////////

  /** The token a call presents. */
  function Presented(s: Step): Option<Token> {
    match s
    case ReleaseToken(token) => Some(token)
    case Copy(token, offset, data) => Some(token)
    case CommitTree(prepared) => Some(prepared.destination)
    case _ => None
  }

  /** A call that presents a released or foreign token fails and changes nothing. */
  lemma DeadTokenRefused(l: Ledger, s: Step)
    requires Sound(l) && Presented(s).Some? && !LiveToken(l, Presented(s).value)
    ensures Apply(l, s).0 == l && Apply(l, s).1.Failed?
    ensures !s.CommitTree? ==> Apply(l, s).1.error == if Presented(s).value.owner == l.owner then ReleasedReservation else ForeignOwner
  {
    hide Sound, SlotOf, RangeStart, LiveToken;
    SoundBounds(l);
    SlotExact(l, Presented(s).value);
  }

  /** One call issues at most the token of its own generation, and revives none. */
  lemma StepTokens(l: Ledger, s: Step, t: Token)
    requires Sound(l) && Past(l, t) && !LiveToken(l, t)
    ensures !LiveToken(Apply(l, s).0, t)
  {
    hide Sound, Search, AlignUp, IsPowerOfTwo, FreeSlot, AnyBlocks, RangeStart, StampError, RequestError, SlotFrom;
    SoundBounds(l);
    var m := Apply(l, s).0;
    if i: nat :| Live(m, i) && m.slots[i].value.token == t {
      assert Live(l, i) && l.slots[i] == m.slots[i];
    }
  }

  //////////////////////////////////////////////////////////////////////////////
  // Worlds: many ledgers and one owner counter
  //////////////////////////////////////////////////////////////////////////////

  datatype World = World(counter: u64, ledgers: seq<Ledger>)

  datatype Event = Create(base: u64, ram: seq<byte>) | On(index: nat, step: Step)

  /** A new ledger over its backing, taking its owner from the counter. */
  function Open(counter: u64, base: u64, ram: seq<byte>): (u64, Result<Ledger, Error>) {
    if |ram| >= U64_LIMIT then (counter, Err(ArithmeticOverflow))
    else if |ram| == 0 then (counter, Err(EmptyBacking))
    else if !Fits64(base + |ram|) then (counter, Err(ArithmeticOverflow))
    else if !Fits64(counter + 1) then (counter, Err(IdentityExhausted))
    else (counter + 1, Ok(Ledger(Extent(base, |ram|), counter, 0, seq(MAX_RESERVATIONS, i => None), ram)))
  }

  ghost predicate SoundWorld(w: World) {
    && (forall k :: 0 <= k < |w.ledgers| ==> Sound(w.ledgers[k]) && w.ledgers[k].owner < w.counter)
    && (forall j, k :: 0 <= j < k < |w.ledgers| ==> w.ledgers[j].owner != w.ledgers[k].owner)
  }

  predicate Occurs(e: Event) {
    e.On? ==> Possible(e.step)
  }

  function Next(w: World, e: Event): (World, Outcome)
    requires forall k :: 0 <= k < |w.ledgers| ==> w.ledgers[k].aperture.bytes == |w.ledgers[k].ram|
  {
    match e
    case Create(base, ram) =>
      var (counter, made) := Open(w.counter, base, ram);
      if made.Err? then (w, Failed(made.error)) else (World(counter, w.ledgers + [made.value]), Done)
    case On(index, step) =>
      if index >= |w.ledgers| then (w, Uncalled)
      else
        var (l, r) := Apply(w.ledgers[index], step);
        (w.(ledgers := w.ledgers[index := l]), r)
  }

  lemma OpenSound(counter: u64, base: u64, ram: seq<byte>)
    requires Open(counter, base, ram).1.Ok?
    ensures Sound(Open(counter, base, ram).1.value) && Open(counter, base, ram).0 == counter + 1
    ensures Open(counter, base, ram).1.value.owner == counter
  {
    assert forall i: nat :: !Live(Open(counter, base, ram).1.value, i);
  }

  /** A ledger is opened exactly over some bytes whose end is a word, with an owner to spare; it is empty, and holds those bytes. */
  lemma OpenExact(counter: u64, base: u64, ram: seq<byte>)
    ensures var (c, made) := Open(counter, base, ram);
            && (made.Ok? <==> 0 < |ram| && base + |ram| < U64_LIMIT && counter + 1 < U64_LIMIT)
            && (made.Err? ==> c == counter && made.error == if |ram| == 0 then EmptyBacking else if base + |ram| >= U64_LIMIT then ArithmeticOverflow else IdentityExhausted)
            && (made.Ok? ==> c == counter + 1 && Sound(made.value) && made.value.owner == counter && made.value.generation == 0 &&
                             made.value.aperture == Extent(base, |ram|) && made.value.ram == ram && forall r :: !Reserves(made.value, r))
  {
    var made := Open(counter, base, ram).1;
    if made.Ok? {
      OpenSound(counter, base, ram);
      assert forall i: nat :: !Live(made.value, i);
    }
  }

  lemma NextSound(w: World, e: Event)
    requires SoundWorld(w)
    ensures forall k :: 0 <= k < |w.ledgers| ==> w.ledgers[k].aperture.bytes == |w.ledgers[k].ram|
    ensures var v := Next(w, e).0;
            && SoundWorld(v) && w.counter <= v.counter && |w.ledgers| <= |v.ledgers|
            && forall k :: 0 <= k < |w.ledgers| ==> v.ledgers[k].owner == w.ledgers[k].owner && v.ledgers[k].generation >= w.ledgers[k].generation
  {
    hide Sound, Apply, Open;
    forall k | 0 <= k < |w.ledgers| ensures w.ledgers[k].aperture.bytes == |w.ledgers[k].ram| {
      SoundBounds(w.ledgers[k]);
    }
    match e
    case Create(base, ram) => if Open(w.counter, base, ram).1.Ok? { OpenSound(w.counter, base, ram); }
    case On(index, step) => if index < |w.ledgers| { StepEffect(w.ledgers[index], step); }
  }

  /** The world after a list of events. */
  ghost function Play(w: World, events: seq<Event>): World
    requires SoundWorld(w)
    decreases |events|
  {
    if events == [] then w else
    NextSound(w, events[0]);
    Play(Next(w, events[0]).0, events[1..])
  }

  /** The tokens the events issue, in order. */
  ghost function Tokens(w: World, events: seq<Event>): seq<Token>
    requires SoundWorld(w)
    decreases |events|
  {
    if events == [] then [] else
    NextSound(w, events[0]);
    var (v, r) := Next(w, events[0]);
    (if r.Issued? then [r.token] else []) + Tokens(v, events[1..])
  }

  /** A token some ledger of the world issued at some time; and one that is live. */
  ghost predicate Spent(w: World, t: Token) {
    exists k :: 0 <= k < |w.ledgers| && Past(w.ledgers[k], t)
  }

  ghost predicate LiveAnywhere(w: World, t: Token) {
    exists k :: 0 <= k < |w.ledgers| && LiveToken(w.ledgers[k], t)
  }

  /** After any list of events all ledgers are sound and keep their different owners, and no generation has gone back. */
  lemma {:induction false} RunSound(w: World, events: seq<Event>)
    requires SoundWorld(w)
    ensures var v := Play(w, events);
            && SoundWorld(v) && |w.ledgers| <= |v.ledgers|
            && forall k :: 0 <= k < |w.ledgers| ==> v.ledgers[k].owner == w.ledgers[k].owner && v.ledgers[k].generation >= w.ledgers[k].generation
    decreases |events|
  {
    hide SoundWorld, Next;
    if events != [] {
      NextSound(w, events[0]);
      RunSound(Next(w, events[0]).0, events[1..]);
    }
  }

  lemma NextIssues(w: World, e: Event)
    requires SoundWorld(w)
    ensures forall k :: 0 <= k < |w.ledgers| ==> w.ledgers[k].aperture.bytes == |w.ledgers[k].ram|
    ensures Next(w, e).1.Issued? ==> !Spent(w, Next(w, e).1.token) && Spent(Next(w, e).0, Next(w, e).1.token)
    ensures forall t :: Spent(w, t) ==> Spent(Next(w, e).0, t)
  {
    NextSound(w, e);
    hide Sound, Apply, Open;
    var v := Next(w, e).0;
    if e.On? && e.index < |w.ledgers| {
      StepEffect(w.ledgers[e.index], e.step);
      if Next(w, e).1.Issued? {
        assert Past(v.ledgers[e.index], Next(w, e).1.token);
      }
    }
    forall t | Spent(w, t) ensures Spent(v, t) {
      var k :| 0 <= k < |w.ledgers| && Past(w.ledgers[k], t);
      assert Past(v.ledgers[k], t);
    }
  }

  /** No token is ever issued twice, nor one that was issued before the run began. */
  lemma {:induction false} TokensNeverReused(w: World, events: seq<Event>)
    requires SoundWorld(w)
    ensures FlatDt.Distinct(Tokens(w, events))
    ensures forall i :: 0 <= i < |Tokens(w, events)| ==> !Spent(w, Tokens(w, events)[i])
    decreases |events|
  {
    hide SoundWorld, Next, Spent;
    if events != [] {
      NextSound(w, events[0]);
      NextIssues(w, events[0]);
      var (v, r) := Next(w, events[0]);
      TokensNeverReused(v, events[1..]);
      var rest := Tokens(v, events[1..]);
      if r.Issued? {
        assert Tokens(w, events) == [r.token] + rest;
      } else {
        assert Tokens(w, events) == rest;
      }
    }
  }

  lemma NextRevivesNothing(w: World, e: Event, t: Token)
    requires SoundWorld(w) && Spent(w, t) && !LiveAnywhere(w, t)
    ensures forall k :: 0 <= k < |w.ledgers| ==> w.ledgers[k].aperture.bytes == |w.ledgers[k].ram|
    ensures Spent(Next(w, e).0, t) && !LiveAnywhere(Next(w, e).0, t)
  {
    NextSound(w, e);
    NextIssues(w, e);
    hide Sound, Apply, Open, LiveToken;
    var v := Next(w, e).0;
    if k :| 0 <= k < |v.ledgers| && LiveToken(v.ledgers[k], t) {
      assert Sound(v.ledgers[k]);
      SlotExact(v.ledgers[k], t);
      if k < |w.ledgers| {
        assert v.ledgers[k].owner == w.ledgers[k].owner;
        assert Past(w.ledgers[k], t);
        assert !LiveToken(w.ledgers[k], t);
        if e.On? && e.index == k {
          StepTokens(w.ledgers[k], e.step, t);
        }
      }
    }
  }

  /** A token that has been released is dead in every later world. */
  lemma {:induction false} DeadForever(w: World, events: seq<Event>, t: Token)
    requires SoundWorld(w) && Spent(w, t) && !LiveAnywhere(w, t)
    ensures !LiveAnywhere(Play(w, events), t)
    decreases |events|
  {
    hide SoundWorld, Next, Spent, LiveAnywhere;
    if events != [] {
      NextSound(w, events[0]);
      NextRevivesNothing(w, events[0], t);
      DeadForever(Next(w, events[0]).0, events[1..], t);
    }
  }

  /** A call that presents the token fails with the error of a dead one and changes nothing, and nothing reads or binds by it. */
  ghost predicate DeadIn(l: Ledger, t: Token)
    requires l.aperture.bytes == |l.ram|
  {
    var e := if t.owner == l.owner then ReleasedReservation else ForeignOwner;
    && !LiveToken(l, t) && ReadBytes(l, t) == Err(e)
    && Release(l, t) == (l, Err(e))
    && (forall offset: nat, data :: CopyInto(l, t, offset, data) == (l, Err(e)))
    && (forall stamp, tree :: Bind(l, stamp, t, tree).Err?)
    && (forall stamp, tree :: Commit(l, Prepared(tree, stamp, t)).0 == l && Commit(l, Prepared(tree, stamp, t)).1.Err?)
  }

  lemma DeadMeans(l: Ledger, t: Token)
    requires Sound(l) && !LiveToken(l, t)
    ensures l.aperture.bytes == |l.ram| && DeadIn(l, t)
  {
    hide Sound, LiveToken, SlotOf, RangeStart, StampError, Store;
    SoundBounds(l);
    SlotExact(l, t);
  }

  /** A release event that succeeds: the token is spent, and live in no ledger of the world after it. */
  lemma NextReleases(w: World, k: nat, t: Token)
    requires SoundWorld(w) && k < |w.ledgers|
    ensures forall k :: 0 <= k < |w.ledgers| ==> w.ledgers[k].aperture.bytes == |w.ledgers[k].ram|
    ensures var (v, r) := Next(w, On(k, ReleaseToken(t)));
            && (r.Done? <==> LiveToken(w.ledgers[k], t) && CanMove(w.ledgers[k]))
            && (r.Done? ==> Spent(v, t) && !LiveAnywhere(v, t))
  {
    NextSound(w, On(k, ReleaseToken(t)));
    hide Sound, Release, Open, LiveToken, Emptied;
    var (v, r) := Next(w, On(k, ReleaseToken(t)));
    ReleaseExact(w.ledgers[k], t);
    if r.Done? {
      SlotExact(w.ledgers[k], t);
      assert Past(v.ledgers[k], t);
      forall j | 0 <= j < |v.ledgers| ensures !LiveToken(v.ledgers[j], t) {
        SlotExact(v.ledgers[j], t);
        assert j != k ==> v.ledgers[j].owner != v.ledgers[k].owner;
      }
    }
  }

  /** Once an event of a run has released a token, that token is refused by every ledger in every later world. */
  lemma ReleasedForever(w: World, k: nat, t: Token, events: seq<Event>, j: nat)
    requires SoundWorld(w) && k < |w.ledgers| && LiveToken(w.ledgers[k], t) && CanMove(w.ledgers[k])
    ensures forall k :: 0 <= k < |w.ledgers| ==> w.ledgers[k].aperture.bytes == |w.ledgers[k].ram|
    ensures var (v, r) := Next(w, On(k, ReleaseToken(t)));
            && r == Done && SoundWorld(v)
            && (j < |Play(v, events).ledgers| ==> Sound(Play(v, events).ledgers[j]) && DeadIn(Play(v, events).ledgers[j], t))
  {
    hide Next, Sound, Spent, DeadIn, LiveToken, CanMove;
    NextSound(w, On(k, ReleaseToken(t)));
    NextReleases(w, k, t);
    var v := Next(w, On(k, ReleaseToken(t))).0;
    RunSound(v, events);
    DeadForever(v, events, t);
    if j < |Play(v, events).ledgers| {
      assert !LiveToken(Play(v, events).ledgers[j], t);
      DeadMeans(Play(v, events).ledgers[j], t);
    }
  }

  //////////////////////////////////////////////////////////////////////////////
  // Commits
  //////////////////////////////////////////////////////////////////////////////

  function StampOf(l: Ledger): Stamp {
    Stamp(l.owner, l.generation)
  }

  lemma NextKeeps(w: World, e: Event, k: nat)
    requires SoundWorld(w) && k < |w.ledgers|
    ensures forall k :: 0 <= k < |w.ledgers| ==> w.ledgers[k].aperture.bytes == |w.ledgers[k].ram|
    ensures |Next(w, e).0.ledgers| > k
    ensures Next(w, e).0.ledgers[k].generation == w.ledgers[k].generation ==> Next(w, e).0.ledgers[k] == w.ledgers[k]
  {
    hide Sound, Apply, Open;
    NextSound(w, e);
    if e.On? && e.index == k {
      StepEffect(w.ledgers[k], e.step);
    }
  }

  /** Over any run, a ledger whose generation has not moved is the same ledger, byte for byte. */
  lemma {:induction false} SameGenerationSameLedger(w: World, events: seq<Event>, k: nat)
    requires SoundWorld(w) && k < |w.ledgers|
    ensures |Play(w, events).ledgers| > k
    ensures Play(w, events).ledgers[k].generation == w.ledgers[k].generation ==> Play(w, events).ledgers[k] == w.ledgers[k]
    decreases |events|
  {
    hide SoundWorld, Next;
    RunSound(w, events);
    if events != [] {
      NextSound(w, events[0]);
      NextKeeps(w, events[0], k);
      var v := Next(w, events[0]).0;
      RunSound(v, events[1..]);
      SameGenerationSameLedger(v, events[1..], k);
    }
  }

  /**
   A tree prepared against a snapshot of one ledger commits, after any events on any ledgers, only to
   that ledger and only if nothing in it has changed since.
   */
  lemma CommitOnlyUnchanged(w: World, events: seq<Event>, k: nat, j: nat, p: Prepared)
    requires SoundWorld(w) && k < |w.ledgers| && p.stamp == StampOf(w.ledgers[k])
    requires j < |Play(w, events).ledgers|
    ensures Sound(Play(w, events).ledgers[j])
    ensures Commit(Play(w, events).ledgers[j], p).1.Ok? <==>
            (j == k && Play(w, events).ledgers[k] == w.ledgers[k] && TreeStart(w.ledgers[k], p.destination, |p.tree|).Ok? &&
             Fits64(w.ledgers[k].generation + 1))
  {
    hide Sound, Play, TreeStart;
    RunSound(w, events);
    SoundBounds(Play(w, events).ledgers[j]);
    SameGenerationSameLedger(w, events, k);
  }

  //////////////////////////////////////////////////////////////////////////////
  // A committed device tree
  //////////////////////////////////////////////////////////////////////////////

  /** Slot i holds the reservation of t for a device tree, and its leading bytes are a tree the validator accepts. */
  predicate HoldsAt(l: Ledger, i: nat, t: Token, tree: seq<byte>) {
    && Live(l, i) && l.slots[i].value.token == t && l.slots[i].value.purpose == RuntimeDeviceTree
    && FlatDt.Accepts(tree) && |tree| <= l.slots[i].value.extent.bytes
    && 0 <= StartOf(l, l.slots[i].value) && StartOf(l, l.slots[i].value) + |tree| <= |l.ram|
    && l.ram[StartOf(l, l.slots[i].value)..StartOf(l, l.slots[i].value) + |tree|] == tree
  }

  ghost predicate Holds(l: Ledger, t: Token, tree: seq<byte>) {
    exists i: nat :: HoldsAt(l, i, t, tree)
  }

  /** What a reader of the reservation sees: the tree comes first, and no other accepted tree does. */
  lemma HeldIsRead(l: Ledger, t: Token, tree: seq<byte>, other: seq<byte>)
    requires Sound(l) && Holds(l, t, tree)
    ensures ReadBytes(l, t).Ok? && tree <= ReadBytes(l, t).value
    ensures FlatDt.Accepts(other) && other <= ReadBytes(l, t).value ==> other == tree
  {
    hide SlotOf, FlatDt.Accepts;
    var i: nat :| HoldsAt(l, i, t, tree);
    OneSlot(l, t, i);
    assert RecordOk(l, l.slots[i].value);
    var r := l.slots[i].value;
    var start := StartOf(l, r);
    assert RangeStart(l, r, 0, r.extent.bytes) == Ok(start);
    var all := ReadBytes(l, t).value;
    assert all == l.ram[start..start + r.extent.bytes];
    assert all[..|tree|] == l.ram[start..start + |tree|];
    if FlatDt.Accepts(other) && other <= all {
      OneAcceptedPrefix(all, tree, other);
    }
  }

  lemma OneAcceptedPrefix(all: seq<byte>, a: seq<byte>, b: seq<byte>)
    requires a <= all && b <= all && FlatDt.Accepts(a) && FlatDt.Accepts(b)
    ensures a == b
  {
    hide *;
    if |a| <= |b| {
      assert b == a + b[|a|..];
      FlatDt.PrefixFree(a, b[|a|..]);
    } else {
      assert a == b + a[|b|..];
      FlatDt.PrefixFree(b, a[|b|..]);
    }
  }

  /** A successful commit makes its destination hold the tree. */
  lemma CommitHolds(l: Ledger, p: Prepared)
    requires Sound(l) && FlatDt.Accepts(p.tree) && Commit(l, p).1.Ok?
    ensures Holds(Commit(l, p).0, p.destination, p.tree)
  {
    hide SlotFrom, FlatDt.Accepts;
    var i := SlotOf(l, p.destination).value;
    assert RecordOk(l, l.slots[i].value);
    var m := Commit(l, p).0;
    var start := StartOf(l, l.slots[i].value);
    assert m.ram[start..start + |p.tree|] == p.tree;
    assert HoldsAt(m, i, p.destination, p.tree);
  }

  /** Bytes stored inside one reservation leave the bytes of another. */
  lemma OtherBytesKept(l: Ledger, j: nat, offset: nat, data: seq<byte>, i: nat, t: Token, tree: seq<byte>)
    requires Sound(l) && HoldsAt(l, i, t, tree) && Live(l, j) && i != j
    requires RangeStart(l, l.slots[j].value, offset, |data|).Ok? && Fits64(l.generation + 1)
    ensures RangeStart(l, l.slots[j].value, offset, |data|).value + |data| <= |l.ram|
    ensures HoldsAt(l.(ram := Store(l.ram, RangeStart(l, l.slots[j].value, offset, |data|).value, data), generation := l.generation + 1), i, t, tree)
  {
    hide FlatDt.Accepts;
    var start := RangeStart(l, l.slots[j].value, offset, |data|).value;
    assert RecordOk(l, l.slots[j].value) && RecordOk(l, l.slots[i].value) && Apart(l.slots[i].value, l.slots[j].value);
    var ram := Store(l.ram, start, data);
    var from := StartOf(l, l.slots[i].value);
    assert ram[from..from + |tree|] == l.ram[from..from + |tree|];
  }

  predicate Spares(s: Step, t: Token) {
    !s.Lend? && !(s.ReleaseToken? && s.token == t)
  }

  /** The tree a reservation holds after a call: a new one if the call commits one there. */
  function HeldAfter(l: Ledger, s: Step, t: Token, tree: seq<byte>): seq<byte>
    requires l.aperture.bytes == |l.ram|
  {
    if s.CommitTree? && s.prepared.destination == t && Apply(l, s).1.Done? then s.prepared.tree else tree
  }

  lemma SlotStepHolds(l: Ledger, s: Step, t: Token, i: nat, tree: seq<byte>)
    requires l.aperture.bytes == |l.ram| && HoldsAt(l, i, t, tree) && Spares(s, t)
    requires s.ReserveAt? || s.AllocateAny? || s.ReleaseToken?
    ensures HoldsAt(Apply(l, s).0, i, t, tree)
  {
    hide Search, AlignUp, IsPowerOfTwo, FreeSlotFrom, AnyBlocks, RequestError, SlotFrom, FlatDt.Accepts;
  }

  lemma CopyHolds(l: Ledger, s: Step, t: Token, i: nat, tree: seq<byte>)
    requires Sound(l) && HoldsAt(l, i, t, tree) && s.Copy?
    ensures HoldsAt(Apply(l, s).0, i, t, tree)
  {
    hide Sound, RangeStart, SlotFrom, FlatDt.Accepts;
    SoundBounds(l);
    OneSlot(l, t, i);
    if Apply(l, s).1.Done? {
      OtherBytesKept(l, SlotOf(l, s.token).value, s.offset, s.data, i, t, tree);
    }
  }

  lemma OtherCommitHolds(l: Ledger, s: Step, t: Token, i: nat, tree: seq<byte>)
    requires Sound(l) && HoldsAt(l, i, t, tree) && s.CommitTree? && s.prepared.destination != t
    ensures HoldsAt(Apply(l, s).0, i, t, tree)
  {
    hide Sound, RangeStart, StampError, SlotFrom, FlatDt.Accepts;
    SoundBounds(l);
    OneSlot(l, t, i);
    if Apply(l, s).1.Done? {
      OtherBytesKept(l, SlotOf(l, s.prepared.destination).value, 0, s.prepared.tree, i, t, tree);
    }
  }

  /** Reserving, releasing another token, copying and committing all leave an accepted tree in place. */
  lemma StepHolds(l: Ledger, s: Step, t: Token, tree: seq<byte>)
    requires Sound(l) && Holds(l, t, tree) && Possible(s) && Spares(s, t)
    ensures Holds(Apply(l, s).0, t, HeldAfter(l, s, t, tree))
  {
    hide Sound, HoldsAt, Commit, FlatDt.Accepts;
    SoundBounds(l);
    var i: nat :| HoldsAt(l, i, t, tree);
    if s.CommitTree? {
      if s.prepared.destination != t {
        OtherCommitHolds(l, s, t, i, tree);
      } else if Apply(l, s).1.Done? {
        CommitHolds(l, s.prepared);
      } else {
        StepEffect(l, s);
      }
    } else if s.Copy? {
      CopyHolds(l, s, t, i, tree);
    } else {
      SlotStepHolds(l, s, t, i, tree);
    }
  }

  predicate SparesEvent(e: Event, k: nat, t: Token) {
    e.On? && e.index == k ==> Spares(e.step, t)
  }

  lemma NextHolds(w: World, e: Event, k: nat, t: Token, tree: seq<byte>) returns (after: seq<byte>)
    requires SoundWorld(w) && k < |w.ledgers| && Holds(w.ledgers[k], t, tree) && Occurs(e) && SparesEvent(e, k, t)
    ensures forall k :: 0 <= k < |w.ledgers| ==> w.ledgers[k].aperture.bytes == |w.ledgers[k].ram|
    ensures k < |Next(w, e).0.ledgers| && Holds(Next(w, e).0.ledgers[k], t, after)
  {
    NextSound(w, e);
    hide Sound, Apply, Open, Holds;
    after := tree;
    if e.On? && e.index == k {
      StepHolds(w.ledgers[k], e.step, t, tree);
      after := HeldAfter(w.ledgers[k], e.step, t, tree);
    }
  }

  /**
   After a commit the reservation keeps starting with an accepted tree, through any events on any
   ledgers, as long as its own ledger is not lent out and the token not released.
   */
  lemma {:induction false} CommittedTreeStays(w: World, events: seq<Event>, k: nat, t: Token, tree: seq<byte>) returns (after: seq<byte>)
    requires SoundWorld(w) && k < |w.ledgers| && Holds(w.ledgers[k], t, tree)
    requires forall i :: 0 <= i < |events| ==> Occurs(events[i]) && SparesEvent(events[i], k, t)
    ensures |Play(w, events).ledgers| > k
    ensures Holds(Play(w, events).ledgers[k], t, after)
    decreases |events|
  {
    hide SoundWorld, Next, Holds, Occurs, SparesEvent;
    after := tree;
    if events != [] {
      NextSound(w, events[0]);
      var next := NextHolds(w, events[0], k, t, tree);
      after := CommittedTreeStays(Next(w, events[0]).0, events[1..], k, t, next);
    }
  }
}
