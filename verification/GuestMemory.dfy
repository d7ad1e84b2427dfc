/**
 The guest memory ledger as the object the program keeps: one allocation of bytes, a fixed table of
 reservations and a generation. Every method is proved against the ledger as a value.
 */
module GuestMemory {
  import opened Wrappers
  import opened Words
  import opened L = Ledger
  import RuntimeDt

  class GuestMemory {
    const aperture: Extent
    const owner: u64
    const backing: array<byte>
    const reservations: array<Option<Record>>
    var generation: u64

    ghost function View(): Ledger
      reads this, backing, reservations
    {
      Ledger(aperture, owner, generation, reservations[..], backing[..])
    }

    ghost predicate Valid()
      reads this, backing, reservations
    {
      Sound(View())
    }

    /** A ledger over fixed bytes; `new` in the program checks the bounds before it gets here. */
    constructor (base: u64, owner: u64, bytes: array<byte>)
      requires 0 < bytes.Length && Fits64(base + bytes.Length)
      ensures Valid() && backing == bytes && fresh(reservations)
      ensures View() == Ledger(Extent(base, bytes.Length), owner, 0, seq(MAX_RESERVATIONS, i => None), bytes[..])
    {
      aperture := Extent(base, bytes.Length);
      this.owner := owner;
      backing := bytes;
      generation := 0;
      reservations := new Option<Record>[MAX_RESERVATIONS](i => None);
      new;
      assert reservations[..] == seq(MAX_RESERVATIONS, i => None);
      assert forall i: nat :: !Live(View(), i);
    }

    /** The first empty slot. */
    method FirstFree() returns (slot: Option<nat>)
      ensures slot == FreeSlot(reservations[..])
    {
      var i := 0;
      while i < reservations.Length
        invariant i <= reservations.Length
        invariant FreeSlot(reservations[..]) == FreeSlotFrom(reservations[..], i)
      {
        if reservations[i].None? {
          return Some(i);
        }
        i := i + 1;
      }
      return None;
    }

    method Position(token: Token) returns (slot: Result<nat, Error>)
      ensures slot == SlotOf(View(), token)
    {
      if token.owner != owner {
        return Err(ForeignOwner);
      }
      var i := 0;
      while i < reservations.Length
        invariant i <= reservations.Length
        invariant SlotFrom(reservations[..], token, 0) == SlotFrom(reservations[..], token, i)
      {
        if reservations[i].Some? && reservations[i].value.token == token {
          return Ok(i);
        }
        i := i + 1;
      }
      return Err(ReleasedReservation);
    }

    /** The maximum of the ends of the reservations that meet [address, end). */
    method FurthestBlocking(address: nat, end: nat) returns (blocking: Option<nat>)
      ensures blocking == BlockingEnd(reservations[..], address, end)
    {
      blocking := None;
      var i := 0;
      while i < reservations.Length
        invariant i <= reservations.Length
        invariant blocking == BlockingEnd(reservations[..i], address, end)
      {
        var slot := reservations[i];
        assert reservations[..i + 1][..i] == reservations[..i];
        if Blocks(slot, address, end) && (blocking.None? || blocking.value <= slot.value.extent.End()) {
          blocking := Some(slot.value.extent.End());
        }
        i := i + 1;
      }
      assert reservations[..i] == reservations[..];
    }

    method ReserveAt(address: u64, bytes: u64, alignment: u64, purpose: Purpose) returns (r: Result<Token, Error>)
      requires Valid()
      modifies this`generation, reservations
      ensures Valid()
      ensures (View(), r) == Reserve(old(View()), address, bytes, alignment, purpose)
      ensures r.Ok? ==> Added(old(View()), View(), Record(r.value, Extent(address, bytes), alignment, purpose)) && !old(LiveToken(View(), r.value))
      ensures r.Err? ==> View() == old(View()) && Refused(View(), address, bytes, alignment, r.error)
    {
      hide IsPowerOfTwo, AnyBlocks, BlockingEnd, FreeSlotFrom, Sound, Added, Refused, LiveToken, Met, Full;
      ReserveSound(View(), address, bytes, alignment, purpose);
      ReserveExact(View(), address, bytes, alignment, purpose);
      SoundBounds(View());
      if RequestError(bytes, alignment).Some? {
        return Err(RequestError(bytes, alignment).value);
      }
      PowerPositive(alignment);
      if address % alignment != 0 {
        return Err(UnalignedAddress);
      }
      if !Fits64(address + bytes) {
        return Err(ArithmeticOverflow);
      }
      if address < aperture.address || address + bytes > aperture.End() {
        return Err(OutsideAperture);
      }
      var blocking := FurthestBlocking(address, address + bytes);
      if blocking.Some? {
        return Err(Overlap);
      }
      var slot := FirstFree();
      if slot.None? {
        return Err(ReservationLimit);
      }
      if !Fits64(generation + 1) {
        return Err(GenerationExhausted);
      }
      var token := Token(owner, generation + 1);
      reservations[slot.value] := Some(Record(token, Extent(address, bytes), alignment, purpose));
      generation := generation + 1;
      return Ok(token);
    }

    method Allocate(bytes: u64, alignment: u64, purpose: Purpose) returns (r: Result<Token, Error>)
      requires Valid()
      modifies this`generation, reservations
      ensures Valid()
      ensures (View(), r) == L.Allocate(old(View()), bytes, alignment, purpose)
    {
      hide IsPowerOfTwo, AnyBlocks, BlockingEnd, FreeSlotFrom, AlignUp, Sound, Reserve;
      SoundBounds(View());
      if RequestError(bytes, alignment).Some? {
        return Err(RequestError(bytes, alignment).value);
      }
      var slot := FirstFree();
      if slot.None? {
        return Err(ReservationLimit);
      }
      if !Fits64(aperture.address) {
        assert false;
      }
      var first := AlignUp(aperture.address, alignment);
      if first.Err? {
        return Err(first.error);
      }
      var candidate: u64 := first.value;
      while true
        invariant View() == old(View())
        invariant Search(View(), first.value, bytes, alignment) == Search(View(), candidate, bytes, alignment)
        decreases if candidate < aperture.End() then aperture.End() - candidate else 0
      {
        if !Fits64(candidate + bytes) {
          return Err(ArithmeticOverflow);
        }
        var end := candidate + bytes;
        if end > aperture.End() {
          return Err(NoSpace);
        }
        var blocking := FurthestBlocking(candidate, end);
        if blocking.None? {
          r := ReserveAt(candidate, bytes, alignment, purpose);
          return;
        }
        BlockingEndInside(View(), candidate, end);
        var next := AlignUp(blocking.value, alignment);
        if next.Err? {
          return Err(next.error);
        }
        candidate := next.value;
      }
    }

    method Release(token: Token) returns (r: Result<(), Error>)
      requires Valid()
      modifies this`generation, reservations
      ensures Valid()
      ensures (View(), r) == L.Release(old(View()), token)
      ensures r.Ok? <==> old(LiveToken(View(), token) && CanMove(View()))
      ensures r.Ok? ==> Emptied(old(View()), View(), token) && !LiveToken(View(), token)
      ensures r.Err? ==> View() == old(View())
    {
      hide Sound, LiveToken, Emptied, Reserves, SlotOf;
      ReleaseSound(View(), token);
      ReleaseExact(View(), token);
      SoundBounds(View());
      var slot := Position(token);
      if slot.Err? {
        return Err(slot.error);
      }
      if !Fits64(generation + 1) {
        return Err(GenerationExhausted);
      }
      reservations[slot.value] := None;
      generation := generation + 1;
      return Ok(());
    }

    /** The bytes of a live reservation. */
    method Read(token: Token) returns (r: Result<seq<byte>, Error>)
      requires Valid()
      ensures r == ReadBytes(View(), token)
      ensures r.Ok? <==> LiveToken(View(), token)
      ensures r.Ok? ==> forall n :: Names(View(), token, n) ==>
                        n.extent.End() <= aperture.End() && aperture.address <= n.extent.address &&
                        r.value == backing[n.extent.address - aperture.address..n.extent.End() - aperture.address]
    {
      hide Sound, SlotOf, Names, LiveToken;
      SoundBounds(View());
      ReadExact(View(), token);
      var slot := Position(token);
      if slot.Err? {
        return Err(slot.error);
      }
      var record := reservations[slot.value].value;
      var start := Range(record, 0, record.extent.bytes);
      if start.Err? {
        return Err(start.error);
      }
      return Ok(backing[start.value..start.value + record.extent.bytes]);
    }

    /** The place of `bytes` bytes at an offset of a reservation in the backing, with every sum checked. */
    method Range(record: Record, offset: nat, bytes: nat) returns (r: Result<nat, Error>)
      ensures r == RangeStart(View(), record, offset, bytes)
      ensures r.Ok? ==> r.value + bytes <= aperture.bytes
    {
      if !Fits64(offset + bytes) {
        return Err(ArithmeticOverflow);
      }
      if offset + bytes > record.extent.bytes {
        return Err(DestinationCapacity);
      }
      if record.extent.address < aperture.address {
        return Err(ArithmeticOverflow);
      }
      var start := record.extent.address - aperture.address + offset;
      if !Fits64(start + bytes) {
        return Err(ArithmeticOverflow);
      }
      if start + bytes > aperture.bytes {
        return Err(OutsideAperture);
      }
      return Ok(start);
    }

    /** `copy_from_slice` into the backing. */
    method Put(at: nat, data: seq<byte>)
      requires at + |data| <= backing.Length
      modifies backing
      ensures backing[..] == Store(old(backing[..]), at, data)
    {
      var i := 0;
      while i < |data|
        invariant i <= |data|
        invariant forall k {:trigger backing[k]} :: 0 <= k < backing.Length ==> backing[k] == if at <= k < at + i then data[k - at] else old(backing[..])[k]
      {
        backing[at + i] := data[i];
        i := i + 1;
      }
      assert backing[..] == Store(old(backing[..]), at, data);
    }

    method CopyInto(token: Token, offset: nat, data: seq<byte>) returns (r: Result<(), Error>)
      requires Valid()
      modifies this`generation, backing
      ensures Valid()
      ensures (View(), r) == L.CopyInto(old(View()), token, offset, data)
      ensures r.Err? ==> View() == old(View())
      ensures r.Ok? ==> old(LiveToken(View(), token)) && forall n :: old(Names(View(), token, n)) ==>
                        Written(old(View()), View(), n.extent.address - aperture.address + offset, data)
    {
      hide Sound, SlotOf, RangeStart, Written, Names, LiveToken;
      SoundBounds(View());
      CopyExact(View(), token, offset, data);
      StepEffect(View(), Copy(token, offset, data));
      var slot := Position(token);
      if slot.Err? {
        return Err(slot.error);
      }
      var record := reservations[slot.value].value;
      if record.purpose == RuntimeDeviceTree {
        return Err(WrongPurpose);
      }
      var start := Range(record, offset, |data|);
      if start.Err? {
        return Err(start.error);
      }
      if !Fits64(generation + 1) {
        return Err(GenerationExhausted);
      }
      Put(start.value, data);
      generation := generation + 1;
      return Ok(());
    }

    method CheckStamp(stamp: Stamp) returns (e: Option<Error>)
      ensures e == StampError(View(), stamp)
    {
      if stamp.owner != owner {
        return Some(ForeignOwner);
      }
      if stamp.generation != generation {
        return Some(StaleSnapshot);
      }
      return None;
    }

    method TreeRange(token: Token, bytes: nat) returns (r: Result<nat, Error>)
      requires Valid()
      ensures r == TreeStart(View(), token, bytes)
      ensures r.Ok? ==> r.value + bytes <= aperture.bytes
    {
      hide Sound, SlotOf, RangeStart;
      var slot := Position(token);
      if slot.Err? {
        return Err(slot.error);
      }
      var record := reservations[slot.value].value;
      if record.purpose != RuntimeDeviceTree {
        return Err(WrongPurpose);
      }
      if record.extent.address % 4 != 0 {
        return Err(UnalignedAddress);
      }
      r := Range(record, 0, bytes);
    }

    method BindDeviceTree(stamp: Stamp, destination: Token, tree: seq<byte>) returns (r: Result<Prepared, Error>)
      requires Valid()
      ensures r == Bind(View(), stamp, destination, tree)
      ensures r.Ok? <==> Ready(View(), stamp, destination, |tree|)
      ensures r.Ok? ==> r.value == Prepared(tree, stamp, destination)
    {
      hide Sound, TreeStart, StampError, Ready, NotReady;
      BindExact(View(), stamp, destination, tree);
      var e := CheckStamp(stamp);
      if e.Some? {
        return Err(e.value);
      }
      var start := TreeRange(destination, |tree|);
      if start.Err? {
        return Err(start.error);
      }
      return Ok(Prepared(tree, stamp, destination));
    }

    method CommitDeviceTree(prepared: Prepared) returns (r: Result<(), Error>)
      requires Valid()
      modifies this`generation, backing
      ensures Valid()
      ensures (View(), r) == Commit(old(View()), prepared)
      ensures r.Ok? <==> old(Ready(View(), prepared.stamp, prepared.destination, |prepared.tree|) && CanMove(View()))
      ensures r.Ok? ==> forall n :: old(Names(View(), prepared.destination, n)) ==>
                        Written(old(View()), View(), n.extent.address - aperture.address, prepared.tree)
      ensures r.Err? ==> View() == old(View())
    {
      hide Sound, TreeStart, StampError, Ready, NotReady, Names, Written;
      SoundBounds(View());
      CommitExact(View(), prepared);
      StepEffect(View(), CommitTree(prepared));
      var e := CheckStamp(prepared.stamp);
      if e.Some? {
        return Err(e.value);
      }
      var start := TreeRange(prepared.destination, |prepared.tree|);
      if start.Err? {
        return Err(start.error);
      }
      if !Fits64(generation + 1) {
        return Err(GenerationExhausted);
      }
      Put(start.value, prepared.tree);
      generation := generation + 1;
      return Ok(());
    }

    /** An exclusive loan; `left` is what the borrower leaves in memory. */
    method WithGuestMemory(left: seq<byte>) returns (r: Result<(), Error>)
      requires Valid() && |left| == backing.Length
      modifies this`generation, backing
      ensures Valid()
      ensures (View(), r) == Loan(old(View()), left)
    {
      hide Sound;
      SoundBounds(View());
      StepEffect(View(), Lend(left));
      if !Fits64(generation + 1) {
        return Err(GenerationExhausted);
      }
      generation := generation + 1;
      Put(0, left);
      assert backing[..] == left;
      return Ok(());
    }
  }

  /** `new`: the checks of a ledger, and an owner from the counter that the caller passes in and gets back. */
  method Create(counter: u64, base: u64, bytes: array<byte>) returns (next: u64, r: Result<GuestMemory, Error>)
    ensures var (c, made) := Open(counter, base, bytes[..]);
            && next == c && r.Ok? == made.Ok? && (r.Err? ==> r.error == made.error)
            && (r.Ok? ==> fresh(r.value) && r.value.backing == bytes && r.value.Valid() && r.value.View() == made.value)
  {
    next := counter;
    if bytes.Length >= U64_LIMIT {
      return counter, Err(ArithmeticOverflow);
    }
    if bytes.Length == 0 {
      return counter, Err(EmptyBacking);
    }
    if !Fits64(base + bytes.Length) {
      return counter, Err(ArithmeticOverflow);
    }
    if !Fits64(counter + 1) {
      return counter, Err(IdentityExhausted);
    }
    var m := new GuestMemory(base, counter, bytes);
    return counter + 1, Ok(m);
  }

  /** Every tree the template substituter produces can be committed: the validator accepts it. */
  lemma PreparedTreesArePossible(source: seq<byte>, digest: nat, provided: seq<RuntimeDt.Binding>, maximumOutput: nat, l: Ledger, stamp: Stamp, t: Token)
    requires RuntimeDt.Prepare(source, digest, provided, maximumOutput).Ok?
    requires Bind(l, stamp, t, RuntimeDt.Prepare(source, digest, provided, maximumOutput).value.bytes).Ok?
    ensures Possible(CommitTree(Bind(l, stamp, t, RuntimeDt.Prepare(source, digest, provided, maximumOutput).value.bytes).value))
  {
    hide RuntimeDt.Prepare, TreeStart, StampError;
    var m := RuntimeDt.PrepareMeaning(source, digest, provided, maximumOutput);
  }
}
