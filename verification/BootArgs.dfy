/**
 The boot-argument reader of the memory properties: a second walk over a device tree, which checks
 almost nothing because the strict validator has already accepted the bytes.
 */
module BootArgs {
  import opened Wrappers
  import opened Words
  import opened DeviceTree
  import FlatDt

  datatype Error = InvalidDeviceTree | MissingDramProperties | InvalidDramProperties

  datatype Range = Range(start: nat, end: nat)

  /** The bytes of `chosen` with its terminator. */
  const CHOSEN: seq<byte> := [0x63, 0x68, 0x6f, 0x73, 0x65, 0x6e, 0]

  /** `dram-base`. */
  const DRAM_BASE: seq<byte> := [0x64, 0x72, 0x61, 0x6d, 0x2d, 0x62, 0x61, 0x73, 0x65]

  /** `dram-size`. */
  const DRAM_SIZE: seq<byte> := [0x64, 0x72, 0x61, 0x6d, 0x2d, 0x73, 0x69, 0x7a, 0x65]

  //////////////////////////////////////////////////////////////////////////////
  // What the reader looks for, on trees
  //////////////////////////////////////////////////////////////////////////////

  /** What the property loop remembers. */
  datatype Seen = Seen(chosen: bool, base: Option<seq<byte>>, size: Option<seq<byte>>)

  function See(seen: Seen, name: seq<byte>, value: seq<byte>, depth: nat): Seen {
    if name == NAME then seen.(chosen := depth == 1 && value == CHOSEN)
    else if depth == 1 && name == DRAM_BASE then seen.(base := Some(value))
    else if depth == 1 && name == DRAM_SIZE then seen.(size := Some(value))
    else seen
  }

  function SeeAll(seen: Seen, ps: seq<Property>, depth: nat): Seen
    decreases ps
  {
    if ps == [] then seen else SeeAll(See(seen, NameOf(ps[0]), ps[0].value, depth), ps[1..], depth)
  }

  const NOTHING := Seen(false, None, None)

  function Word64(value: seq<byte>): Result<nat, Error> {
    if |value| == 8 then Ok(Le(value)) else Err(InvalidDramProperties)
  }

  function MakeRange(start: nat, size: nat): Result<Range, Error> {
    if size == 0 || !Fits64(start + size) then Err(InvalidDramProperties) else Ok(Range(start, start + size))
  }

  /** The range a chosen node declares. */
  function Declared(seen: Seen): Result<Range, Error> {
    if seen.base.None? || seen.size.None? then Err(MissingDramProperties) else
    var base :- Word64(seen.base.value);
    var size :- Word64(seen.size.value);
    MakeRange(base, size)
  }

  /** The value of the property with a given name. */
  function Lookup(ps: seq<Property>, name: seq<byte>): Option<seq<byte>> {
    if ps == [] then None
    else if NameOf(ps[0]) == name then Some(ps[0].value)
    else Lookup(ps[1..], name)
  }

  /** The first child with a given node name. */
  function ChildNamed(ns: seq<Node>, name: seq<byte>): Option<Node> {
    if ns == [] then None
    else if FlatDt.NodeName(ns[0].properties) == Some(name) then Some(ns[0])
    else ChildNamed(ns[1..], name)
  }

  /** The memory range of a tree: the two properties of the root child named `chosen`. */
  function DramOf(root: Node): Result<Range, Error> {
    var chosen := ChildNamed(root.children, CHOSEN[..6]);
    if chosen.None? then Err(MissingDramProperties)
    else Declared(Seen(true, Lookup(chosen.value.properties, DRAM_BASE), Lookup(chosen.value.properties, DRAM_SIZE)))
  }

  //////////////////////////////////////////////////////////////////////////////
  // The reader as a function
  //////////////////////////////////////////////////////////////////////////////

  function Take(bytes: seq<byte>, at: nat, size: nat): Result<seq<byte>, Error> {
    if at + size <= |bytes| then Ok(bytes[at..at + size]) else Err(InvalidDeviceTree)
  }

  function Word32(bytes: seq<byte>, at: nat): Result<u32, Error> {
    if at + 4 <= |bytes| then FlatDt.LeBound4(bytes[at..at + 4]); Ok(Le(bytes[at..at + 4])) else Err(InvalidDeviceTree)
  }

  /** Reads one property; the result is the next offset and what was seen. */
  function ReadProperty(bytes: seq<byte>, at: nat, depth: nat, seen: Seen): (r: Result<(nat, Seen), Error>)
    ensures r.Ok? ==> at <= r.value.0 <= |bytes|
  {
    var rawName :- Take(bytes, at, 32);
    var length :- Word32(bytes, at + 32);
    var value :- Take(bytes, at + 36, length);
    var _ :- Take(bytes, at + 36 + length, PaddingSize(length));
    Ok((at + 36 + length + PaddingSize(length), See(seen, rawName[..Terminator(rawName)], value, depth)))
  }

  function ReadProperties(bytes: seq<byte>, at: nat, depth: nat, count: nat, seen: Seen): (r: Result<(nat, Seen), Error>)
    ensures r.Ok? && at <= |bytes| ==> at <= r.value.0 <= |bytes|
    decreases count
  {
    if count == 0 then Ok((at, seen)) else
    var next :- ReadProperty(bytes, at, depth, seen);
    ReadProperties(bytes, next.0, depth, count - 1, next.1)
  }

  function ReadNode(bytes: seq<byte>, at: nat, depth: nat, dram: Option<Range>): (r: Result<(nat, Option<Range>), Error>)
    ensures r.Ok? ==> at + 8 <= r.value.0 <= |bytes|
    decreases if at <= |bytes| then |bytes| - at else 0, 0
  {
    var properties :- Word32(bytes, at);
    var children :- Word32(bytes, at + 4);
    var read :- ReadProperties(bytes, at + 8, depth, properties, NOTHING);
    var found :- Update(read.1, dram);
    ReadChildren(bytes, read.0, depth + 1, children, found)
  }

  function ReadChildren(bytes: seq<byte>, at: nat, depth: nat, count: nat, dram: Option<Range>): (r: Result<(nat, Option<Range>), Error>)
    ensures r.Ok? && at <= |bytes| ==> at <= r.value.0 <= |bytes|
    decreases if at <= |bytes| then |bytes| - at else 0, 1
  {
    if count == 0 then Ok((at, dram)) else
    var next :- ReadNode(bytes, at, depth, dram);
    ReadChildren(bytes, next.0, depth, count - 1, next.1)
  }

  /** The memory range found, after a node was read. */
  function Update(seen: Seen, dram: Option<Range>): Result<Option<Range>, Error> {
    if !seen.chosen then Ok(dram) else
    var declared :- Declared(seen);
    Ok(Some(declared))
  }

  function DramRange(bytes: seq<byte>): Result<Range, Error> {
    var root :- ReadNode(bytes, 0, 0, None);
    if root.1.None? then Err(MissingDramProperties) else Ok(root.1.value)
  }

  //////////////////////////////////////////////////////////////////////////////
  // The reader on the layout of a tree
  //////////////////////////////////////////////////////////////////////////////

  function Visit(n: Node, depth: nat, dram: Option<Range>): Result<Option<Range>, Error>
    decreases n, 1
  {
    var found :- Update(SeeAll(NOTHING, n.properties, depth), dram);
    VisitAll(n.children, depth + 1, found)
  }

  function VisitAll(ns: seq<Node>, depth: nat, dram: Option<Range>): Result<Option<Range>, Error>
    decreases ns, 0
  {
    if ns == [] then Ok(dram) else
    var found :- Visit(ns[0], depth, dram);
    VisitAll(ns[1..], depth, found)
  }

  /** A result together with the offset after what was read. */
  function Ended(r: Result<Option<Range>, Error>, at: nat): Result<(nat, Option<Range>), Error> {
    if r.Err? then Err(r.error) else Ok((at, r.value))
  }

  lemma {:induction false} PropertiesRead(bytes: seq<byte>, at: nat, depth: nat, ps: seq<Property>, seen: Seen)
    requires FlatDt.StrictProperties(ps, depth) && At(bytes, at, PropertiesBytes(ps))
    ensures ReadProperties(bytes, at, depth, |ps|, seen) == Ok((at + |PropertiesBytes(ps)|, SeeAll(seen, ps, depth)))
    decreases ps
  {
    hide At, See, SeeAll, PropertyBytes, PropertiesBytes, NameOf, ReadProperty, FlatDt.StrictProperty, FlatDt.StrictProperties;
    if ps == [] {
      NothingSeen(seen, depth);
    } else {
      var p, rest := ps[0], ps[1..];
      assert ps == [p] + rest;
      FlatDt.PropertiesCons(p, rest, depth);
      AtConcat(bytes, at, PropertyBytes(p), PropertiesBytes(rest));
      PropertyRead(bytes, at, depth, p, seen);
      SeeCons(seen, p, rest, depth);
      PropertiesRead(bytes, at + |PropertyBytes(p)|, depth, rest, See(seen, NameOf(p), p.value, depth));
    }
  }

  lemma NothingSeen(seen: Seen, depth: nat)
    ensures SeeAll(seen, [], depth) == seen && PropertiesBytes([]) == []
  {
  }

  lemma SeeCons(seen: Seen, p: Property, rest: seq<Property>, depth: nat)
    ensures SeeAll(seen, [p] + rest, depth) == SeeAll(See(seen, NameOf(p), p.value, depth), rest, depth)
  {
    hide See, NameOf;
    assert ([p] + rest)[1..] == rest;
  }

  lemma PropertyRead(bytes: seq<byte>, at: nat, depth: nat, p: Property, seen: Seen)
    requires FlatDt.StrictProperty(p, depth) && At(bytes, at, PropertyBytes(p))
    ensures ReadProperty(bytes, at, depth, seen) == Ok((at + |PropertyBytes(p)|, See(seen, NameOf(p), p.value, depth)))
  {
    hide At, Le, See, PropertyBytes, FlatDt.StrictProperty, Terminator;
    StrictShape(p, depth);
    FlatDt.PropertyParts(bytes, at, p);
    PropertySize(p);
  }

  lemma StrictShape(p: Property, depth: nat)
    requires FlatDt.StrictProperty(p, depth)
    ensures PropertyShape(p) && p.rawLength < 0x8000_0000
  {
  }

  lemma {:induction false} NodeRead(bytes: seq<byte>, at: nat, depth: nat, n: Node, dram: Option<Range>)
    requires FlatDt.StrictNode(n, depth) && At(bytes, at, NodeBytes(n))
    ensures ReadNode(bytes, at, depth, dram) == Ended(Visit(n, depth, dram), at + |NodeBytes(n)|)
    decreases n, 1
  {
    FlatDt.StrictNodeParts(n, depth);
    hide At, Le, SeeAll, ReadProperties, ReadChildren, VisitAll, Update, NodeBytes, PropertiesBytes, NodesBytes, FlatDt.StrictNode, FlatDt.StrictNodes,
      FlatDt.StrictProperties, FlatDt.Cost, FlatDt.Costs, FlatDt.Names, FlatDt.NodeNames, FlatDt.NodeName, FlatDt.Distinct;
    FlatDt.NodeParts(bytes, at, n);
    FlatDt.NodeSize(n);
    PropertiesRead(bytes, at + 8, depth, n.properties, NOTHING);
    var found := Update(SeeAll(NOTHING, n.properties, depth), dram);
    if found.Ok? {
      NodesRead(bytes, at + 8 + |PropertiesBytes(n.properties)|, depth + 1, n.children, found.value);
    }
  }

  lemma {:induction false} NodesRead(bytes: seq<byte>, at: nat, depth: nat, ns: seq<Node>, dram: Option<Range>)
    requires FlatDt.StrictNodes(ns, depth) && At(bytes, at, NodesBytes(ns))
    ensures ReadChildren(bytes, at, depth, |ns|, dram) == Ended(VisitAll(ns, depth, dram), at + |NodesBytes(ns)|)
    decreases ns, 0
  {
    hide At, ReadNode, Visit, NodeBytes, FlatDt.StrictNode;
    if ns != [] {
      AtConcat(bytes, at, NodeBytes(ns[0]), NodesBytes(ns[1..]));
      NodeRead(bytes, at, depth, ns[0], dram);
      var found := Visit(ns[0], depth, dram);
      if found.Ok? {
        NodesRead(bytes, at + |NodeBytes(ns[0])|, depth, ns[1..], found.value);
      }
    }
  }

  //////////////////////////////////////////////////////////////////////////////
  // What the walk decides
  //////////////////////////////////////////////////////////////////////////////

  lemma {:induction false} NeverChosen(seen: Seen, ps: seq<Property>, depth: nat)
    requires depth != 1 && !seen.chosen
    ensures !SeeAll(seen, ps, depth).chosen
    decreases ps
  {
    hide NameOf;
    if ps != [] {
      NeverChosen(See(seen, NameOf(ps[0]), ps[0].value, depth), ps[1..], depth);
    }
  }

  lemma {:induction false} BelowRootChildren(n: Node, depth: nat, dram: Option<Range>)
    requires depth >= 2
    ensures Visit(n, depth, dram) == Ok(dram)
    decreases n, 1
  {
    hide SeeAll, VisitAll;
    NeverChosen(NOTHING, n.properties, depth);
    AllBelow(n.children, depth + 1, dram);
  }

  lemma {:induction false} AllBelow(ns: seq<Node>, depth: nat, dram: Option<Range>)
    requires depth >= 2
    ensures VisitAll(ns, depth, dram) == Ok(dram)
    decreases ns, 0
  {
    hide Visit;
    if ns != [] {
      BelowRootChildren(ns[0], depth, dram);
      AllBelow(ns[1..], depth, dram);
    }
  }

  lemma {:induction false} SeenLast(seen: Seen, ps: seq<Property>)
    requires FlatDt.Distinct(FlatDt.Names(ps))
    ensures SeeAll(seen, ps, 1).base == if Lookup(ps, DRAM_BASE).Some? then Lookup(ps, DRAM_BASE) else seen.base
    ensures SeeAll(seen, ps, 1).size == if Lookup(ps, DRAM_SIZE).Some? then Lookup(ps, DRAM_SIZE) else seen.size
    ensures SeeAll(seen, ps, 1).chosen == if Lookup(ps, NAME).Some? then Lookup(ps, NAME).value == CHOSEN else seen.chosen
    decreases ps
  {
    hide NameOf;
    if ps != [] {
      DistinctTail(ps);
      DifferentNames();
      SeenLast(See(seen, NameOf(ps[0]), ps[0].value, 1), ps[1..]);
      hide FlatDt.Distinct, FlatDt.Names;
    }
  }

  lemma DifferentNames()
    ensures NAME != DRAM_BASE && NAME != DRAM_SIZE && DRAM_BASE != DRAM_SIZE
  {
    assert DRAM_BASE[5] != DRAM_SIZE[5];
  }

  lemma {:induction false} LookupAbsent(ps: seq<Property>, name: seq<byte>)
    requires name !in FlatDt.Names(ps)
    ensures Lookup(ps, name).None?
  {
    hide NameOf;
    if ps != [] {
      assert FlatDt.Names(ps)[0] == NameOf(ps[0]);
      assert FlatDt.Names(ps[1..]) == FlatDt.Names(ps)[1..];
      LookupAbsent(ps[1..], name);
    }
  }

  lemma DistinctTail(ps: seq<Property>)
    requires ps != [] && FlatDt.Distinct(FlatDt.Names(ps))
    ensures FlatDt.Distinct(FlatDt.Names(ps[1..])) && NameOf(ps[0]) !in FlatDt.Names(ps[1..])
    ensures Lookup(ps[1..], NameOf(ps[0])).None?
  {
    hide NameOf;
    var names := FlatDt.Names(ps);
    assert FlatDt.Names(ps[1..]) == names[1..];
    assert forall i :: 1 <= i < |names| ==> names[0] != names[i];
    LookupAbsent(ps[1..], NameOf(ps[0]));
  }

  /** In a strict node the `name` property holds the node name. */
  lemma {:induction false} NodeNameLookup(ps: seq<Property>, depth: nat)
    requires FlatDt.StrictProperties(ps, depth) && FlatDt.Distinct(FlatDt.Names(ps))
    ensures FlatDt.NodeName(ps).Some? <==> Lookup(ps, NAME).Some?
    ensures Lookup(ps, NAME).Some? ==> Lookup(ps, NAME).value == FlatDt.NodeName(ps).value + [0]
  {
    hide NameOf, FlatDt.StrictProperty, FlatDt.StrictProperties, FlatDt.Distinct, FlatDt.Names;
    if ps != [] {
      var p, rest := ps[0], ps[1..];
      assert ps == [p] + rest;
      FlatDt.PropertiesCons(p, rest, depth);
      DistinctTail(ps);
      NodeNameLookup(rest, depth);
      NodeNameCons(p, rest);
      StrictName(p, depth);
      hide FlatDt.NodeName;
    }
  }

  lemma StrictName(p: Property, depth: nat)
    requires FlatDt.StrictProperty(p, depth)
    ensures NameOf(p) == NAME ==> p.value != [] && p.value == p.value[..|p.value| - 1] + [0]
  {
  }

  /** A property in front gives the node name only when no later one does. */
  lemma {:induction false} NodeNameCons(p: Property, rest: seq<Property>)
    ensures FlatDt.NodeName([p] + rest) ==
            if FlatDt.NodeName(rest).Some? then FlatDt.NodeName(rest)
            else if NameOf(p) == NAME && p.value != [] then Some(p.value[..|p.value| - 1]) else None
  {
    hide NameOf;
    var all := [p] + rest;
    if rest == [] {
      assert all == [p] && all[..0] == [];
    } else {
      var front := rest[..|rest| - 1];
      assert all[..|all| - 1] == [p] + front;
      assert all[|all| - 1] == rest[|rest| - 1];
      NodeNameCons(p, front);
    }
  }

  lemma NamedChosen(name: seq<byte>)
    ensures name + [0] == CHOSEN <==> name == CHOSEN[..6]
  {
    assert CHOSEN == CHOSEN[..6] + [0];
    assert (name + [0])[..|name|] == name;
  }

  /** What the properties of a child of the root show. */
  lemma ChildSeen(ps: seq<Property>)
    requires FlatDt.StrictProperties(ps, 1) && FlatDt.Distinct(FlatDt.Names(ps))
    ensures SeeAll(NOTHING, ps, 1) == Seen(FlatDt.NodeName(ps) == Some(CHOSEN[..6]), Lookup(ps, DRAM_BASE), Lookup(ps, DRAM_SIZE))
  {
    hide FlatDt.StrictProperties, FlatDt.Distinct, FlatDt.Names, FlatDt.NodeName, Lookup, SeeAll, NameOf;
    SeenLast(NOTHING, ps);
    NodeNameLookup(ps, 1);
    if FlatDt.NodeName(ps).Some? {
      NamedChosen(FlatDt.NodeName(ps).value);
    }
  }

  /** A child of the root is visited for its declaration exactly when it is named `chosen`. */
  lemma VisitChild(n: Node, dram: Option<Range>)
    requires FlatDt.StrictNode(n, 1)
    ensures Visit(n, 1, dram) ==
            if FlatDt.NodeName(n.properties) == Some(CHOSEN[..6])
            then Update(Seen(true, Lookup(n.properties, DRAM_BASE), Lookup(n.properties, DRAM_SIZE)), dram)
            else Ok(dram)
  {
    var chosen := FlatDt.NodeName(n.properties) == Some(CHOSEN[..6]);
    hide *;
    FlatDt.StrictNodeParts(n, 1);
    ChildSeen(n.properties);
    VisitOne(n, dram);
    IfChosen(chosen, Lookup(n.properties, DRAM_BASE), Lookup(n.properties, DRAM_SIZE), dram);
  }

  /** The children of a child of the root never matter. */
  lemma VisitOne(n: Node, dram: Option<Range>)
    ensures Visit(n, 1, dram) == Update(SeeAll(NOTHING, n.properties, 1), dram)
  {
    hide SeeAll, VisitAll, Update;
    var found := Update(SeeAll(NOTHING, n.properties, 1), dram);
    if found.Ok? {
      AllBelow(n.children, 2, found.value);
    }
  }

  lemma IfChosen(chosen: bool, base: Option<seq<byte>>, size: Option<seq<byte>>, dram: Option<Range>)
    ensures Update(Seen(chosen, base, size), dram) == if chosen then Update(Seen(true, base, size), dram) else Ok(dram)
  {
    hide Declared;
  }

  lemma {:induction false} VisitRootChildren(ns: seq<Node>, dram: Option<Range>)
    requires FlatDt.StrictNodes(ns, 1) && FlatDt.Distinct(FlatDt.NodeNames(ns))
    ensures VisitAll(ns, 1, dram) ==
            var chosen := ChildNamed(ns, CHOSEN[..6]);
            if chosen.None? then Ok(dram)
            else Update(Seen(true, Lookup(chosen.value.properties, DRAM_BASE), Lookup(chosen.value.properties, DRAM_SIZE)), dram)
    decreases ns
  {
    hide Visit, FlatDt.StrictNode, FlatDt.NodeName, Lookup, Declared;
    if ns != [] {
      var names := FlatDt.NodeNames(ns);
      assert FlatDt.NodeNames(ns[1..]) == names[1..];
      assert forall i :: 1 <= i < |names| ==> names[0] != names[i];
      VisitChild(ns[0], dram);
      if FlatDt.NodeName(ns[0].properties) == Some(CHOSEN[..6]) {
        NoChildNamed(ns[1..], CHOSEN[..6]);
      }
      var found := Visit(ns[0], 1, dram);
      if found.Ok? {
        VisitRootChildren(ns[1..], found.value);
      }
    }
  }

  lemma {:induction false} NoChildNamed(ns: seq<Node>, name: seq<byte>)
    requires Some(name) !in FlatDt.NodeNames(ns)
    ensures ChildNamed(ns, name).None?
  {
    hide FlatDt.NodeName;
    if ns != [] {
      assert FlatDt.NodeNames(ns)[0] == FlatDt.NodeName(ns[0].properties);
      assert FlatDt.NodeNames(ns[1..]) == FlatDt.NodeNames(ns)[1..];
      NoChildNamed(ns[1..], name);
    }
  }

  /**
   On bytes the strict validator accepts, the reader never runs out of bytes: it decides on the
   properties of the one root child named `chosen`, and on nothing else.
   */
  lemma DramRangeExact(bytes: seq<byte>)
    requires FlatDt.Accepts(bytes)
    ensures DramRange(bytes) == DramOf(FlatDt.Decode(bytes).value)
    ensures DramRange(bytes).Err? ==> DramRange(bytes).error != InvalidDeviceTree
  {
    hide FlatDt.Decode, FlatDt.Canonical, DramRange, DramOf, NodeBytes;
    var n := FlatDt.Decode(bytes).value;
    FlatDt.DecodeExact(bytes, n);
    StrictRoot(n);
    RootRead(n);
  }

  lemma RootRead(n: Node)
    requires FlatDt.StrictNode(n, 0)
    ensures DramRange(NodeBytes(n)) == DramOf(n)
    ensures DramOf(n).Err? ==> DramOf(n).error != InvalidDeviceTree
  {
    hide FlatDt.StrictNode, Visit, ReadNode, NodeBytes, At, DramOf;
    AtAll(NodeBytes(n), NodeBytes(n));
    NodeRead(NodeBytes(n), 0, 0, n, None);
    VisitRoot(n);
  }

  lemma StrictRoot(n: Node)
    requires FlatDt.Canonical(n)
    ensures FlatDt.StrictNode(n, 0)
  {
    hide FlatDt.StrictNode, FlatDt.Cost;
  }

  lemma VisitRoot(n: Node)
    requires FlatDt.StrictNode(n, 0)
    ensures Visit(n, 0, None).Ok? ==> DramOf(n) == if Visit(n, 0, None).value.None? then Err(MissingDramProperties) else Ok(Visit(n, 0, None).value.value)
    ensures Visit(n, 0, None).Err? ==> DramOf(n) == Err(Visit(n, 0, None).error) && Visit(n, 0, None).error != InvalidDeviceTree
  {
    hide *;
    FlatDt.StrictNodeParts(n, 0);
    RootSeesNothing(n);
    VisitRootChildren(n.children, None);
    FromChosen(n);
  }

  lemma RootSeesNothing(n: Node)
    ensures Visit(n, 0, None) == VisitAll(n.children, 1, None)
  {
    hide SeeAll, VisitAll;
    NeverChosen(NOTHING, n.properties, 0);
  }

  lemma FromChosen(n: Node)
    requires var chosen := ChildNamed(n.children, CHOSEN[..6]);
             VisitAll(n.children, 1, None) ==
             if chosen.None? then Ok(None)
             else Update(Seen(true, Lookup(chosen.value.properties, DRAM_BASE), Lookup(chosen.value.properties, DRAM_SIZE)), None)
    ensures var r := VisitAll(n.children, 1, None);
            && (r.Ok? ==> DramOf(n) == if r.value.None? then Err(MissingDramProperties) else Ok(r.value.value))
            && (r.Err? ==> DramOf(n) == Err(r.error) && r.error != InvalidDeviceTree)
  {
    hide VisitAll, ChildNamed, Lookup, Le;
  }

  /** At most one child of the root is named `chosen`. */
  lemma OneChosen(bytes: seq<byte>, i: nat, j: nat)
    requires FlatDt.Accepts(bytes)
    requires var ns := FlatDt.Decode(bytes).value.children;
             i < |ns| && j < |ns| && FlatDt.NodeName(ns[i].properties) == FlatDt.NodeName(ns[j].properties)
    ensures i == j
  {
    var n := FlatDt.Decode(bytes).value;
    FlatDt.DecodeExact(bytes, n);
    FlatDt.StrictNodeParts(n, 0);
    hide FlatDt.Decode, FlatDt.StrictNode, FlatDt.NodeName;
    var names := FlatDt.NodeNames(n.children);
    assert names[i] == names[j];
  }

  //////////////////////////////////////////////////////////////////////////////
  // The declared range, property by property
  //////////////////////////////////////////////////////////////////////////////

  /** Some property has the given name and value. */
  ghost predicate HasValue(ps: seq<Property>, name: seq<byte>, value: seq<byte>) {
    exists k :: 0 <= k < |ps| && NameOf(ps[k]) == name && ps[k].value == value
  }

  ghost predicate DeclaresHere(c: Node, base: seq<byte>, size: seq<byte>) {
    HasValue(c.properties, NAME, CHOSEN) && HasValue(c.properties, DRAM_BASE, base) && HasValue(c.properties, DRAM_SIZE, size)
  }

  /** A root child named `chosen` has the two values as its `dram-base` and `dram-size`. */
  ghost predicate Declares(root: Node, base: seq<byte>, size: seq<byte>) {
    exists c :: c in root.children && DeclaresHere(c, base, size)
  }

  /** Two words, the second not zero, whose sum is a word. */
  predicate Usable(base: seq<byte>, size: seq<byte>) {
    |base| == 8 && |size| == 8 && Le(size) > 0 && Le(base) + Le(size) < 0x1_0000_0000_0000_0000
  }

  lemma {:induction false} LookupHas(ps: seq<Property>, name: seq<byte>, value: seq<byte>)
    requires FlatDt.Distinct(FlatDt.Names(ps))
    ensures Lookup(ps, name) == Some(value) <==> HasValue(ps, name, value)
  {
    hide NameOf, HasValue, FlatDt.Distinct, FlatDt.Names;
    if ps == [] {
      NothingHas(name, value);
    } else {
      var p, rest := ps[0], ps[1..];
      assert ps == [p] + rest;
      DistinctTail(ps);
      HasCons(p, rest, name, value);
      LookupHas(rest, name, value);
    }
  }

  lemma NothingHas(name: seq<byte>, value: seq<byte>)
    ensures !HasValue([], name, value)
  {
  }

  lemma HasCons(p: Property, rest: seq<Property>, name: seq<byte>, value: seq<byte>)
    ensures HasValue([p] + rest, name, value) <==> (NameOf(p) == name && p.value == value) || HasValue(rest, name, value)
  {
    hide NameOf;
    var ps := [p] + rest;
    assert ps[0] == p && forall i :: 0 <= i < |rest| ==> ps[i + 1] == rest[i];
    if HasValue(rest, name, value) {
      var k :| 0 <= k < |rest| && NameOf(rest[k]) == name && rest[k].value == value;
      assert ps[k + 1] == rest[k];
    }
  }

  /** The properties of a strict child of the root, by value. */
  lemma ChildDeclares(c: Node, base: seq<byte>, size: seq<byte>)
    requires FlatDt.StrictNode(c, 1)
    ensures DeclaresHere(c, base, size) <==>
            && FlatDt.NodeName(c.properties) == Some(CHOSEN[..6])
            && Lookup(c.properties, DRAM_BASE) == Some(base) && Lookup(c.properties, DRAM_SIZE) == Some(size)
  {
    hide HasValue, Lookup, FlatDt.StrictNode, FlatDt.NodeName, NameOf, FlatDt.Names, FlatDt.Distinct, FlatDt.StrictProperties, FlatDt.StrictNodes;
    FlatDt.StrictNodeParts(c, 1);
    LookupHas(c.properties, NAME, CHOSEN);
    LookupHas(c.properties, DRAM_BASE, base);
    LookupHas(c.properties, DRAM_SIZE, size);
    NodeNameLookup(c.properties, 1);
    NamedChosen(FlatDt.NodeName(c.properties).value);
  }

  /** Among strict children with different names, the first one named `chosen` is the only one. */
  lemma {:induction false} ChosenDeclares(ns: seq<Node>, base: seq<byte>, size: seq<byte>)
    requires FlatDt.StrictNodes(ns, 1) && FlatDt.Distinct(FlatDt.NodeNames(ns))
    ensures (exists c :: c in ns && DeclaresHere(c, base, size)) <==>
            var chosen := ChildNamed(ns, CHOSEN[..6]);
            && chosen.Some? && Lookup(chosen.value.properties, DRAM_BASE) == Some(base) && Lookup(chosen.value.properties, DRAM_SIZE) == Some(size)
    decreases ns
  {
    hide DeclaresHere, Lookup, FlatDt.StrictNode, FlatDt.NodeName;
    if ns != [] {
      var names := FlatDt.NodeNames(ns);
      assert ns == [ns[0]] + ns[1..];
      assert FlatDt.NodeNames(ns[1..]) == names[1..];
      assert forall i :: 1 <= i < |names| ==> names[0] != names[i];
      ChildDeclares(ns[0], base, size);
      ChosenDeclares(ns[1..], base, size);
      if FlatDt.NodeName(ns[0].properties) == Some(CHOSEN[..6]) {
        NoChildNamed(ns[1..], CHOSEN[..6]);
      }
    }
  }

  /**
   The answer on every accepted tree, value by value: the range from `dram-base` over `dram-size` bytes
   when both are there and usable, missing when the child or one of them is not there, invalid otherwise.
   */
  lemma DramRangeDecided(bytes: seq<byte>, r: Range)
    requires FlatDt.Accepts(bytes)
    ensures var root := FlatDt.Decode(bytes).value;
            && (DramRange(bytes) == Ok(r) <==>
                  exists base, size :: Declares(root, base, size) && Usable(base, size) && r == Range(Le(base), Le(base) + Le(size)))
            && (DramRange(bytes) == Err(MissingDramProperties) <==> forall base, size :: !Declares(root, base, size))
            && (DramRange(bytes) == Err(InvalidDramProperties) <==> exists base, size :: Declares(root, base, size) && !Usable(base, size))
  {
    hide DramRange, FlatDt.Decode, FlatDt.Canonical, NodeBytes, Declares, FlatDt.StrictNode, FlatDt.StrictNodes, FlatDt.Distinct, FlatDt.NodeName,
      FlatDt.StrictProperties, FlatDt.Names, Le, DramOf, Usable;
    var root := FlatDt.Decode(bytes).value;
    DramRangeExact(bytes);
    FlatDt.DecodeExact(bytes, root);
    StrictRoot(root);
    FlatDt.StrictNodeParts(root, 0);
    forall base, size ensures Declares(root, base, size) <==> OfChosen(root, base, size) {
      RootDeclares(root, base, size);
    }
    hide OfChosen;
    RangeDecided(root, r);
  }

  /** The same, through the lookups. */
  ghost predicate OfChosen(root: Node, base: seq<byte>, size: seq<byte>) {
    var chosen := ChildNamed(root.children, CHOSEN[..6]);
    && chosen.Some? && Lookup(chosen.value.properties, DRAM_BASE) == Some(base) && Lookup(chosen.value.properties, DRAM_SIZE) == Some(size)
  }

  lemma RootDeclares(root: Node, base: seq<byte>, size: seq<byte>)
    requires FlatDt.StrictNodes(root.children, 1) && FlatDt.Distinct(FlatDt.NodeNames(root.children))
    ensures Declares(root, base, size) <==> OfChosen(root, base, size)
  {
    ChosenDeclares(root.children, base, size);
    hide ChildNamed, Lookup, DeclaresHere, FlatDt.StrictNodes, FlatDt.Distinct;
  }

  lemma RangeDecided(root: Node, r: Range)
    ensures DramOf(root) == Ok(r) <==>
            exists base, size :: OfChosen(root, base, size) && Usable(base, size) && r == Range(Le(base), Le(base) + Le(size))
    ensures DramOf(root) == Err(MissingDramProperties) <==> forall base, size :: !OfChosen(root, base, size)
    ensures DramOf(root) == Err(InvalidDramProperties) <==> exists base, size :: OfChosen(root, base, size) && !Usable(base, size)
  {
    hide ChildNamed, Lookup, Le;
    var chosen := ChildNamed(root.children, CHOSEN[..6]);
    if chosen.Some? && Lookup(chosen.value.properties, DRAM_BASE).Some? && Lookup(chosen.value.properties, DRAM_SIZE).Some? {
      var base, size := Lookup(chosen.value.properties, DRAM_BASE).value, Lookup(chosen.value.properties, DRAM_SIZE).value;
      assert OfChosen(root, base, size);
      assert forall b, s :: OfChosen(root, b, s) ==> b == base && s == size;
    } else {
      assert forall b, s :: !OfChosen(root, b, s);
    }
  }

  //////////////////////////////////////////////////////////////////////////////
  // The reader as the program runs it
  //////////////////////////////////////////////////////////////////////////////

  class Cursor {
    const bytes: seq<byte>
    var offset: nat

    constructor (bytes: seq<byte>)
      ensures this.bytes == bytes && offset == 0
    {
      this.bytes := bytes;
      offset := 0;
    }

    method TakeNext(size: nat) returns (r: Result<seq<byte>, Error>)
      modifies this
      ensures r == Take(bytes, old(offset), size)
      ensures offset == if r.Ok? then old(offset) + size else old(offset)
    {
      var end := offset + size;
      if end > |bytes| {
        return Err(InvalidDeviceTree);
      }
      r := Ok(bytes[offset..end]);
      offset := end;
    }

    method NextWord() returns (r: Result<u32, Error>)
      modifies this
      ensures r == Word32(bytes, old(offset))
      ensures offset == if r.Ok? then old(offset) + 4 else old(offset)
    {
      var raw :- TakeNext(4);
      FlatDt.LeBound4(raw);
      return Ok(Le(raw));
    }

    method NextProperties(depth: nat, count: nat) returns (r: Result<Seen, Error>)
      modifies this
      ensures match ReadProperties(bytes, old(offset), depth, count, NOTHING)
              case Ok(read) => r == Ok(read.1) && offset == read.0
              case Err(e) => r == Err(e)
    {
      hide ReadProperty;
      var seen := NOTHING;
      for i := 0 to count
        invariant ReadProperties(bytes, old(offset), depth, count, NOTHING)
               == ReadProperties(bytes, offset, depth, count - i, seen)
      {
        seen :- NextProperty(depth, seen);
      }
      return Ok(seen);
    }

    method NextProperty(depth: nat, before: Seen) returns (r: Result<Seen, Error>)
      modifies this
      ensures match ReadProperty(bytes, old(offset), depth, before)
              case Ok(read) => r == Ok(read.1) && offset == read.0
              case Err(e) => r == Err(e)
    {
      hide Le, Terminator, See, PaddingSize;
      var rawName :- TakeNext(32);
      var length :- NextWord();
      var value :- TakeNext(length);
      var _ :- TakeNext(PaddingSize(length));
      return Ok(See(before, rawName[..Terminator(rawName)], value, depth));
    }

    /** Reads a node and everything below it; the last chosen node at depth one decides. */
    method NextNode(depth: nat, dram: Option<Range>) returns (r: Result<Option<Range>, Error>)
      modifies this
      ensures match ReadNode(bytes, old(offset), depth, dram)
              case Ok(read) => r == Ok(read.1) && offset == read.0
              case Err(e) => r == Err(e)
      decreases if offset <= |bytes| then |bytes| - offset else 0, 0
    {
      hide ReadProperties, ReadChildren, Declared, Le;
      var propertyCount :- NextWord();
      var childCount :- NextWord();
      var seen :- NextProperties(depth, propertyCount);
      var found := dram;
      if seen.chosen {
        var declared :- Declared(seen);
        found := Some(declared);
      }
      r := NextChildren(depth + 1, childCount, found);
    }

    method NextChildren(depth: nat, count: nat, dram: Option<Range>) returns (r: Result<Option<Range>, Error>)
      modifies this
      ensures match ReadChildren(bytes, old(offset), depth, count, dram)
              case Ok(read) => r == Ok(read.1) && offset == read.0
              case Err(e) => r == Err(e)
      decreases if offset <= |bytes| then |bytes| - offset else 0, 1
    {
      hide ReadNode;
      var found := dram;
      for i := 0 to count
        invariant old(offset) <= offset && (i > 0 ==> old(offset) < offset <= |bytes|)
        invariant ReadChildren(bytes, old(offset), depth, count, dram)
               == ReadChildren(bytes, offset, depth, count - i, found)
      {
        found :- NextNode(depth, found);
      }
      return Ok(found);
    }

    static method FindDram(bytes: seq<byte>) returns (r: Result<Range, Error>)
      ensures r == DramRange(bytes)
    {
      hide ReadNode;
      var cursor := new Cursor(bytes);
      var dram :- cursor.NextNode(0, None);
      if dram.None? {
        return Err(MissingDramProperties);
      }
      return Ok(dram.value);
    }
  }
}
