/**
 The firmware device-tree parser: looser limits than the runtime codec, arbitrary padding, and
 template properties marked by the top bit of their length. It accepts exactly the layouts of
 well-named trees within its limits, and records where every node and property stands.
 */
module FirmwareDt {
  import opened Wrappers
  import opened Words
  import opened DeviceTree
  import FlatDt

  const TEMPLATE_FLAG: u32 := 0x8000_0000
  const MAX_INPUT_BYTES: nat := 1024 * 1024
  const MAX_NODES: nat := 4096
  const MAX_PROPERTIES: nat := 16384
  const MAX_PROPERTIES_PER_NODE: nat := 1024
  const MAX_CHILDREN_PER_NODE: nat := 1024
  const MAX_DEPTH: nat := 32

  datatype Error =
    | InputTooLarge
    | Truncated
    | LimitsExceeded
    | InvalidPropertyName
    | TrailingData
    | UnresolvedTemplates(count: nat)
    | Runtime(error: FlatDt.Error)

  datatype Statistics = Statistics(nodes: nat, properties: nat, templates: nat, maximumDepth: nat)

  datatype FirmwareProperty = FirmwareProperty(offset: nat, wire: Property)

  datatype FirmwareNode = FirmwareNode(offset: nat, properties: seq<FirmwareProperty>, children: seq<FirmwareNode>)

  predicate IsTemplate(p: Property) {
    BitAnd(p.rawLength, TEMPLATE_FLAG) != 0
  }

  lemma LengthBits(x: u32)
    ensures BitAnd(x, 0x7fff_ffff) == x % 0x8000_0000
    ensures BitAnd(x, TEMPLATE_FLAG) != 0 <==> x >= 0x8000_0000
  {
    hide BitAnd, Pow2;
    Pow2Word();
    assert Pow2(31) == 0x8000_0000 by {
      Pow2Add(1, 31);
      Pow2One();
    }
    AndLow(x, 31);
    AndMask(x, 32, 31);
  }

  lemma Pow2One()
    ensures Pow2(1) == 2
  {
  }

  //////////////////////////////////////////////////////////////////////////////
  // Trees the parser accepts
  //////////////////////////////////////////////////////////////////////////////

  predicate Named(p: Property) {
    var t := Terminator(p.rawName);
    PropertyShape(p) && 0 < t && Printable(p.rawName[..t]) && AllZero(p.rawName[t..])
  }

  predicate AllNamed(ps: seq<Property>) {
    forall i :: 0 <= i < |ps| ==> Named(ps[i])
  }

  predicate WellNamed(n: Node, depth: nat)
    decreases n, 1
  {
    && depth <= MAX_DEPTH
    && |n.properties| <= MAX_PROPERTIES_PER_NODE && |n.children| <= MAX_CHILDREN_PER_NODE
    && AllNamed(n.properties) && AllWellNamed(n.children, depth + 1)
  }

  predicate AllWellNamed(ns: seq<Node>, depth: nat)
    decreases ns, 0
  {
    ns == [] || (WellNamed(ns[0], depth) && AllWellNamed(ns[1..], depth))
  }

  function Templates(ps: seq<Property>): nat {
    if ps == [] then 0 else (if IsTemplate(ps[0]) then 1 else 0) + Templates(ps[1..])
  }

  function Max(a: nat, b: nat): nat {
    if a > b then a else b
  }

  /** The statistics after a tree is added to them. */
  function Tally(s: Statistics, n: Node, depth: nat): Statistics
    decreases n, 1
  {
    TallyAll(Statistics(s.nodes + 1, s.properties + |n.properties|, s.templates + Templates(n.properties), Max(s.maximumDepth, depth)),
             n.children, depth + 1)
  }

  function TallyAll(s: Statistics, ns: seq<Node>, depth: nat): Statistics
    decreases ns, 0
  {
    if ns == [] then s else TallyAll(Tally(s, ns[0], depth), ns[1..], depth)
  }

  predicate Within(s: Statistics) {
    s.nodes <= MAX_NODES && s.properties <= MAX_PROPERTIES
  }

  const NOTHING := Statistics(0, 0, 0, 0)

  predicate Parsable(n: Node) {
    WellNamed(n, 0) && Within(Tally(NOTHING, n, 0)) && |NodeBytes(n)| <= MAX_INPUT_BYTES
  }

  //////////////////////////////////////////////////////////////////////////////
  // Offsets
  //////////////////////////////////////////////////////////////////////////////

  /** The tree with the offset of every node and property, laid out from `at`. */
  function Locate(n: Node, at: nat): FirmwareNode
    decreases n, 1
  {
    FirmwareNode(at, LocateProperties(n.properties, at + 8), LocateAll(n.children, at + 8 + |PropertiesBytes(n.properties)|))
  }

  function LocateProperties(ps: seq<Property>, at: nat): (r: seq<FirmwareProperty>)
    ensures |r| == |ps| && forall i :: 0 <= i < |ps| ==> r[i].wire == ps[i]
  {
    if ps == [] then [] else [FirmwareProperty(at, ps[0])] + LocateProperties(ps[1..], at + |PropertyBytes(ps[0])|)
  }

  function LocateAll(ns: seq<Node>, at: nat): (r: seq<FirmwareNode>)
    ensures |r| == |ns|
    decreases ns, 0
  {
    if ns == [] then [] else [Locate(ns[0], at)] + LocateAll(ns[1..], at + |NodeBytes(ns[0])|)
  }

  lemma {:induction false} LocateInjective(a: Node, b: Node, at: nat)
    requires Locate(a, at) == Locate(b, at)
    ensures a == b
    decreases a, 1
  {
    hide LocateProperties, LocateAll, PropertiesBytes;
    var ls := LocateProperties(a.properties, at + 8);
    assert |a.properties| == |ls| == |b.properties|;
    assert forall i :: 0 <= i < |ls| ==> ls[i].wire == a.properties[i] && ls[i].wire == b.properties[i];
    assert a.properties == b.properties;
    LocateAllInjective(a.children, b.children, at + 8 + |PropertiesBytes(a.properties)|);
  }

  lemma {:induction false} LocateAllInjective(xs: seq<Node>, ys: seq<Node>, at: nat)
    requires LocateAll(xs, at) == LocateAll(ys, at)
    ensures xs == ys
    decreases xs, 0
  {
    hide Locate, NodeBytes;
    if xs != [] {
      assert |ys| == |xs|;
      assert LocateAll(xs, at)[0] == Locate(xs[0], at) && LocateAll(ys, at)[0] == Locate(ys[0], at);
      LocateInjective(xs[0], ys[0], at);
      assert LocateAll(xs, at)[1..] == LocateAll(xs[1..], at + |NodeBytes(xs[0])|);
      assert LocateAll(ys, at)[1..] == LocateAll(ys[1..], at + |NodeBytes(ys[0])|);
      LocateAllInjective(xs[1..], ys[1..], at + |NodeBytes(xs[0])|);
      assert xs == [xs[0]] + xs[1..] && ys == [ys[0]] + ys[1..];
    } else {
      assert |ys| == |LocateAll(ys, at)|;
    }
  }

  //////////////////////////////////////////////////////////////////////////////
  // The parser as a function
  //////////////////////////////////////////////////////////////////////////////

  datatype Parsed<T> = Parsed(item: T, position: nat, statistics: Statistics)

  function Take(source: seq<byte>, at: nat, count: nat): Result<seq<byte>, Error> {
    if at + count <= |source| then Ok(source[at..at + count]) else Err(Truncated)
  }

  function Word(source: seq<byte>, at: nat): Result<u32, Error> {
    if at + 4 <= |source| then FlatDt.LeBound4(source[at..at + 4]); Ok(Le(source[at..at + 4])) else Err(Truncated)
  }

  function ParseProperty(source: seq<byte>, at: nat, s: Statistics): Result<Parsed<FirmwareProperty>, Error> {
    var rawName :- Take(source, at, 32);
    var t := Terminator(rawName);
    if t == 0 || !Printable(rawName[..t]) || !AllZero(rawName[t..]) then Err(InvalidPropertyName) else
    var rawLength :- Word(source, at + 32);
    var length := BitAnd(rawLength, 0x7fff_ffff);
    var value :- Take(source, at + 36, length);
    var padding :- Take(source, at + 36 + length, PaddingSize(length));
    var p := Property(rawName, rawLength, value, padding);
    Ok(Parsed(FirmwareProperty(at, p), at + 36 + length + PaddingSize(length),
              if IsTemplate(p) then s.(templates := s.templates + 1) else s))
  }

  function ParseProperties(source: seq<byte>, at: nat, count: nat, done: seq<FirmwareProperty>, s: Statistics): Result<Parsed<seq<FirmwareProperty>>, Error>
    decreases count
  {
    if count == 0 then Ok(Parsed(done, at, s)) else
    var next :- ParseProperty(source, at, s);
    ParseProperties(source, next.position, count - 1, done + [next.item], next.statistics)
  }

  /** The checks on a node header, and the statistics after it. */
  function Enter(source: seq<byte>, at: nat, depth: nat, properties: nat, children: nat, s: Statistics): Result<Statistics, Error> {
    if properties > MAX_PROPERTIES_PER_NODE || children > MAX_CHILDREN_PER_NODE
       || s.properties + properties > MAX_PROPERTIES || s.nodes + 1 + children > MAX_NODES then Err(LimitsExceeded)
    else if at + (properties * 36 + children * 8) > |source| then Err(Truncated)
    else Ok(Statistics(s.nodes + 1, s.properties + properties, s.templates, Max(s.maximumDepth, depth)))
  }

  function ParseNode(source: seq<byte>, at: nat, depth: nat, s: Statistics): Result<Parsed<FirmwareNode>, Error>
    decreases if depth > MAX_DEPTH then 0 else MAX_DEPTH + 1 - depth, 0, 0
  {
    if depth > MAX_DEPTH || s.nodes == MAX_NODES then Err(LimitsExceeded) else
    var properties :- Word(source, at);
    var children :- Word(source, at + 4);
    var entered :- Enter(source, at + 8, depth, properties, children, s);
    var ps :- ParseProperties(source, at + 8, properties, [], entered);
    var cs :- ParseChildren(source, ps.position, depth + 1, children, [], ps.statistics);
    Ok(Parsed(FirmwareNode(at, ps.item, cs.item), cs.position, cs.statistics))
  }

  function ParseChildren(source: seq<byte>, at: nat, depth: nat, count: nat, done: seq<FirmwareNode>, s: Statistics): Result<Parsed<seq<FirmwareNode>>, Error>
    decreases if depth > MAX_DEPTH then 0 else MAX_DEPTH + 1 - depth, 1, count
  {
    if count == 0 then Ok(Parsed(done, at, s)) else
    var next :- ParseNode(source, at, depth, s);
    ParseChildren(source, next.position, depth, count - 1, done + [next.item], next.statistics)
  }

  datatype FirmwareTree = FirmwareTree(source: seq<byte>, root: FirmwareNode, statistics: Statistics)

  function Parse(source: seq<byte>): Result<FirmwareTree, Error> {
    if |source| > MAX_INPUT_BYTES then Err(InputTooLarge) else
    var root :- ParseNode(source, 0, 0, NOTHING);
    if root.position != |source| then Err(TrailingData) else Ok(FirmwareTree(source, root.item, root.statistics))
  }

  //////////////////////////////////////////////////////////////////////////////
  // Properties
  //////////////////////////////////////////////////////////////////////////////

  function Count(s: Statistics, p: Property): Statistics {
    if IsTemplate(p) then s.(templates := s.templates + 1) else s
  }

  lemma PropertyParts(source: seq<byte>, at: nat, p: Property)
    requires PropertyShape(p)
    ensures At(source, at, PropertyBytes(p)) <==>
              && Slice(source, at, 32) == Some(p.rawName)
              && at + 36 <= |source| && Le(source[at + 32..at + 36]) == p.rawLength
              && Slice(source, at + 36, |p.value|) == Some(p.value)
              && Slice(source, at + 36 + |p.value|, PaddingSize(|p.value|)) == Some(p.padding)
  {
    hide At, Le, ToLe;
    AtConcat(source, at, p.rawName, ToLe(p.rawLength, 4) + (p.value + p.padding));
    AtConcat(source, at + 32, ToLe(p.rawLength, 4), p.value + p.padding);
    AtConcat(source, at + 36, p.value, p.padding);
    WordAt(source, at + 32, p.rawLength);
    SliceAt(source, at, p.rawName);
    SliceAt(source, at + 36, p.value);
    SliceAt(source, at + 36 + |p.value|, p.padding);
  }

  lemma PropertySound(source: seq<byte>, at: nat, s: Statistics)
    requires ParseProperty(source, at, s).Ok?
    ensures var r := ParseProperty(source, at, s).value;
            && r.item.offset == at && Named(r.item.wire) && At(source, at, PropertyBytes(r.item.wire))
            && r.position == at + |PropertyBytes(r.item.wire)| && r.statistics == Count(s, r.item.wire)
  {
    hide PropertyBytes, Le, BitAnd, Printable, AllZero, Terminator, At;
    var p := ParseProperty(source, at, s).value.item.wire;
    LengthBits(p.rawLength);
    PropertyParts(source, at, p);
    PropertySize(p);
  }

  lemma PropertyComplete(source: seq<byte>, at: nat, s: Statistics, p: Property)
    requires Named(p) && At(source, at, PropertyBytes(p))
    ensures ParseProperty(source, at, s) == Ok(Parsed(FirmwareProperty(at, p), at + |PropertyBytes(p)|, Count(s, p)))
  {
    hide PropertyBytes, Le, BitAnd, Printable, AllZero, Terminator, At;
    LengthBits(p.rawLength);
    PropertyParts(source, at, p);
    PropertySize(p);
  }

  function Counted(s: Statistics, ps: seq<Property>): Statistics {
    s.(templates := s.templates + Templates(ps))
  }

  lemma PropertiesCons(p: Property, rest: seq<Property>, at: nat, s: Statistics)
    ensures PropertiesBytes([p] + rest) == PropertyBytes(p) + PropertiesBytes(rest)
    ensures AllNamed([p] + rest) <==> Named(p) && AllNamed(rest)
    ensures LocateProperties([p] + rest, at) == [FirmwareProperty(at, p)] + LocateProperties(rest, at + |PropertyBytes(p)|)
    ensures Counted(s, [p] + rest) == Counted(Count(s, p), rest)
  {
    hide PropertyBytes, Named, IsTemplate;
    var ps := [p] + rest;
    assert ps[1..] == rest;
    assert forall i :: 0 <= i < |rest| ==> ps[i + 1] == rest[i];
  }

  lemma PropertiesStep(source: seq<byte>, at: nat, count: nat, done: seq<FirmwareProperty>, s: Statistics)
    requires count > 0
    ensures ParseProperties(source, at, count, done, s) ==
            var next := ParseProperty(source, at, s);
            if next.Err? then Err(next.error)
            else ParseProperties(source, next.value.position, count - 1, done + [next.value.item], next.value.statistics)
  {
    hide ParseProperty;
  }

  lemma PropertiesNil(source: seq<byte>, at: nat, done: seq<FirmwareProperty>, s: Statistics)
    ensures ParseProperties(source, at, 0, done, s) == Ok(Parsed(done, at, s))
    ensures PropertiesBytes([]) == [] && AllNamed([]) && LocateProperties([], at) == [] && Counted(s, []) == s
    ensures at <= |source| ==> At(source, at, [])
  {
  }

  lemma {:induction false} PropertiesSound(source: seq<byte>, at: nat, count: nat, done: seq<FirmwareProperty>, s: Statistics)
      returns (ps: seq<Property>)
    requires ParseProperties(source, at, count, done, s).Ok? && at <= |source|
    ensures var r := ParseProperties(source, at, count, done, s).value;
            && |ps| == count && r.item == done + LocateProperties(ps, at) && AllNamed(ps)
            && At(source, at, PropertiesBytes(ps))
            && r.position == at + |PropertiesBytes(ps)| <= |source| && r.statistics == Counted(s, ps)
    decreases count
  {
    hide ParseProperty, ParseProperties, Named, AllNamed, At, PropertyBytes, PropertiesBytes, LocateProperties, Count, Counted;
    if count == 0 {
      ps := [];
      PropertiesNil(source, at, done, s);
      assert done + [] == done;
    } else {
      PropertiesStep(source, at, count, done, s);
      var next := ParseProperty(source, at, s).value;
      var p := next.item.wire;
      PropertySound(source, at, s);
      FlatDt.AtBound(source, at, PropertyBytes(p));
      var rest := PropertiesSound(source, next.position, count - 1, done + [next.item], next.statistics);
      ps := [p] + rest;
      PropertiesCons(p, rest, at, s);
      assert done + ([next.item] + LocateProperties(rest, next.position)) == (done + [next.item]) + LocateProperties(rest, next.position);
      AtConcat(source, at, PropertyBytes(p), PropertiesBytes(rest));
    }
  }

  lemma {:induction false} PropertiesComplete(source: seq<byte>, at: nat, done: seq<FirmwareProperty>, s: Statistics, ps: seq<Property>)
    requires AllNamed(ps) && At(source, at, PropertiesBytes(ps))
    ensures ParseProperties(source, at, |ps|, done, s)
            == Ok(Parsed(done + LocateProperties(ps, at), at + |PropertiesBytes(ps)|, Counted(s, ps)))
    decreases ps
  {
    hide ParseProperty, ParseProperties, Named, AllNamed, At, PropertyBytes, PropertiesBytes, LocateProperties, Count, Counted;
    if ps == [] {
      PropertiesNil(source, at, done, s);
      assert done + [] == done;
    } else {
      var p, rest := ps[0], ps[1..];
      var next := at + |PropertyBytes(p)|;
      assert ps == [p] + rest;
      PropertiesCons(p, rest, at, s);
      AtConcat(source, at, PropertyBytes(p), PropertiesBytes(rest));
      PropertyComplete(source, at, s, p);
      PropertiesStep(source, at, |ps|, done, s);
      PropertiesComplete(source, next, done + [FirmwareProperty(at, p)], Count(s, p), rest);
      assert done + ([FirmwareProperty(at, p)] + LocateProperties(rest, next)) == (done + [FirmwareProperty(at, p)]) + LocateProperties(rest, next);
    }
  }

  //////////////////////////////////////////////////////////////////////////////
  // Nodes
  //////////////////////////////////////////////////////////////////////////////

  lemma WellNamedParts(n: Node, depth: nat, at: nat, s: Statistics)
    ensures WellNamed(n, depth) <==>
              && depth <= MAX_DEPTH && |n.properties| <= MAX_PROPERTIES_PER_NODE && |n.children| <= MAX_CHILDREN_PER_NODE
              && AllNamed(n.properties) && AllWellNamed(n.children, depth + 1)
    ensures Locate(n, at) == FirmwareNode(at, LocateProperties(n.properties, at + 8),
                                          LocateAll(n.children, at + 8 + |PropertiesBytes(n.properties)|))
    ensures Tally(s, n, depth) ==
            TallyAll(Counted(Statistics(s.nodes + 1, s.properties + |n.properties|, s.templates, Max(s.maximumDepth, depth)), n.properties),
                     n.children, depth + 1)
  {
    hide AllNamed, AllWellNamed, LocateProperties, LocateAll, PropertiesBytes, TallyAll, Templates;
  }

  lemma NodesCons(n: Node, rest: seq<Node>, depth: nat, at: nat, s: Statistics)
    ensures NodesBytes([n] + rest) == NodeBytes(n) + NodesBytes(rest)
    ensures AllWellNamed([n] + rest, depth) <==> WellNamed(n, depth) && AllWellNamed(rest, depth)
    ensures LocateAll([n] + rest, at) == [Locate(n, at)] + LocateAll(rest, at + |NodeBytes(n)|)
    ensures TallyAll(s, [n] + rest, depth) == TallyAll(Tally(s, n, depth), rest, depth)
  {
    hide NodeBytes, WellNamed, Locate, Tally;
    assert ([n] + rest)[1..] == rest;
  }

  lemma ChildrenNil(source: seq<byte>, at: nat, depth: nat, done: seq<FirmwareNode>, s: Statistics)
    ensures ParseChildren(source, at, depth, 0, done, s) == Ok(Parsed(done, at, s))
    ensures NodesBytes([]) == [] && AllWellNamed([], depth) && LocateAll([], at) == [] && TallyAll(s, [], depth) == s
    ensures at <= |source| ==> At(source, at, [])
  {
  }

  lemma ChildrenStep(source: seq<byte>, at: nat, depth: nat, count: nat, done: seq<FirmwareNode>, s: Statistics)
    requires count > 0
    ensures ParseChildren(source, at, depth, count, done, s) ==
            var next := ParseNode(source, at, depth, s);
            if next.Err? then Err(next.error)
            else ParseChildren(source, next.value.position, depth, count - 1, done + [next.value.item], next.value.statistics)
  {
    hide ParseNode;
  }

  lemma {:induction false} TallyGrows(s: Statistics, n: Node, depth: nat)
    ensures Tally(s, n, depth).nodes >= s.nodes + 1 + |n.children|
    ensures Tally(s, n, depth).properties >= s.properties + |n.properties|
    ensures Tally(s, n, depth).templates >= s.templates + Templates(n.properties)
    decreases n, 1
  {
    hide Templates;
    var entered := Statistics(s.nodes + 1, s.properties + |n.properties|, s.templates + Templates(n.properties), Max(s.maximumDepth, depth));
    TallyAllGrows(entered, n.children, depth + 1);
  }

  lemma {:induction false} TallyAllGrows(s: Statistics, ns: seq<Node>, depth: nat)
    ensures TallyAll(s, ns, depth).nodes >= s.nodes + |ns|
    ensures TallyAll(s, ns, depth).properties >= s.properties
    ensures TallyAll(s, ns, depth).templates >= s.templates
    decreases ns, 0
  {
    hide Tally;
    if ns != [] {
      TallyGrows(s, ns[0], depth);
      TallyAllGrows(Tally(s, ns[0], depth), ns[1..], depth);
    }
  }

  lemma NodeSteps(source: seq<byte>, at: nat, depth: nat, s: Statistics)
    requires ParseNode(source, at, depth, s).Ok?
    ensures at + 8 <= |source| && depth <= MAX_DEPTH
    ensures var properties, children := Le(source[at..at + 4]), Le(source[at + 4..at + 8]);
            && properties <= MAX_PROPERTIES_PER_NODE && children <= MAX_CHILDREN_PER_NODE
            && var entered := Statistics(s.nodes + 1, s.properties + properties, s.templates, Max(s.maximumDepth, depth));
            && Within(entered)
            && var ps := ParseProperties(source, at + 8, properties, [], entered);
            && ps.Ok?
            && var cs := ParseChildren(source, ps.value.position, depth + 1, children, [], ps.value.statistics);
            && cs.Ok?
            && ParseNode(source, at, depth, s).value == Parsed(FirmwareNode(at, ps.value.item, cs.value.item), cs.value.position, cs.value.statistics)
  {
    hide ParseProperties, ParseChildren, Le;
  }

  lemma {:induction false} NodeSound(source: seq<byte>, at: nat, depth: nat, s: Statistics) returns (n: Node)
    requires ParseNode(source, at, depth, s).Ok? && Within(s)
    ensures var r := ParseNode(source, at, depth, s).value;
            && r.item == Locate(n, at) && WellNamed(n, depth) && At(source, at, NodeBytes(n))
            && r.position == at + |NodeBytes(n)| <= |source| && r.statistics == Tally(s, n, depth) && Within(r.statistics)
    decreases if depth > MAX_DEPTH then 0 else MAX_DEPTH + 1 - depth, 0, 0
  {
    hide ParseNode, ParseProperties, ParseChildren, AllNamed, WellNamed, AllWellNamed, At, Le, NodeBytes, PropertiesBytes, NodesBytes,
      Locate, LocateProperties, LocateAll, Tally, TallyAll, Templates;
    NodeSteps(source, at, depth, s);
    var properties, children := Le(source[at..at + 4]), Le(source[at + 4..at + 8]);
    var entered := Statistics(s.nodes + 1, s.properties + properties, s.templates, Max(s.maximumDepth, depth));
    var ps := ParseProperties(source, at + 8, properties, [], entered).value;
    var qs := PropertiesSound(source, at + 8, properties, [], entered);
    var ns := ChildrenSound(source, ps.position, depth + 1, children, [], ps.statistics);
    n := Node(qs, ns);
    assert [] + LocateProperties(qs, at + 8) == LocateProperties(qs, at + 8);
    assert [] + LocateAll(ns, ps.position) == LocateAll(ns, ps.position);
    FlatDt.NodeParts(source, at, n);
    FlatDt.NodeSize(n);
    WellNamedParts(n, depth, at, s);
  }

  lemma {:induction false} ChildrenSound(source: seq<byte>, at: nat, depth: nat, count: nat, done: seq<FirmwareNode>, s: Statistics)
      returns (ns: seq<Node>)
    requires ParseChildren(source, at, depth, count, done, s).Ok? && Within(s) && at <= |source|
    ensures var r := ParseChildren(source, at, depth, count, done, s).value;
            && |ns| == count && r.item == done + LocateAll(ns, at) && AllWellNamed(ns, depth) && At(source, at, NodesBytes(ns))
            && r.position == at + |NodesBytes(ns)| <= |source| && r.statistics == TallyAll(s, ns, depth) && Within(r.statistics)
    decreases if depth > MAX_DEPTH then 0 else MAX_DEPTH + 1 - depth, 1, count
  {
    hide ParseNode, ParseChildren, WellNamed, AllWellNamed, At, NodeBytes, NodesBytes, Locate, LocateAll, Tally, TallyAll;
    if count == 0 {
      ns := [];
      ChildrenNil(source, at, depth, done, s);
      assert done + [] == done;
    } else {
      ChildrenStep(source, at, depth, count, done, s);
      var next := ParseNode(source, at, depth, s).value;
      var n := NodeSound(source, at, depth, s);
      var rest := ChildrenSound(source, next.position, depth, count - 1, done + [next.item], next.statistics);
      ns := [n] + rest;
      NodesCons(n, rest, depth, at, s);
      assert done + ([next.item] + LocateAll(rest, next.position)) == (done + [next.item]) + LocateAll(rest, next.position);
      AtConcat(source, at, NodeBytes(n), NodesBytes(rest));
    }
  }

  lemma NodeBySteps(source: seq<byte>, at: nat, depth: nat, s: Statistics, properties: nat, children: nat)
    requires at + 8 <= |source| && depth <= MAX_DEPTH
    requires properties == Le(source[at..at + 4]) && children == Le(source[at + 4..at + 8])
    requires properties <= MAX_PROPERTIES_PER_NODE && children <= MAX_CHILDREN_PER_NODE
    requires s.properties + properties <= MAX_PROPERTIES && s.nodes + 1 + children <= MAX_NODES
    requires at + 8 + (properties * 36 + children * 8) <= |source|
    ensures ParseNode(source, at, depth, s) ==
            var entered := Statistics(s.nodes + 1, s.properties + properties, s.templates, Max(s.maximumDepth, depth));
            var ps :- ParseProperties(source, at + 8, properties, [], entered);
            var cs :- ParseChildren(source, ps.position, depth + 1, children, [], ps.statistics);
            Ok(Parsed(FirmwareNode(at, ps.item, cs.item), cs.position, cs.statistics))
  {
    hide ParseProperties, ParseChildren, Le;
  }

  lemma NamedSize(ps: seq<Property>, ns: seq<Node>)
    requires AllNamed(ps)
    ensures |PropertiesBytes(ps)| + |NodesBytes(ns)| >= |ps| * 36 + |ns| * 8
  {
    hide PropertiesBytes, NodesBytes;
    assert forall p :: p in ps ==> PropertyShape(p) by {
      forall p | p in ps ensures PropertyShape(p) {
        var i :| 0 <= i < |ps| && ps[i] == p;
        assert Named(ps[i]);
      }
    }
    PropertiesAtLeast(ps);
    NodesAtLeast(ns);
  }

  lemma {:induction false} NodeComplete(source: seq<byte>, at: nat, depth: nat, s: Statistics, n: Node)
    requires At(source, at, NodeBytes(n)) && WellNamed(n, depth) && Within(Tally(s, n, depth))
    ensures ParseNode(source, at, depth, s) == Ok(Parsed(Locate(n, at), at + |NodeBytes(n)|, Tally(s, n, depth)))
    decreases n, 1
  {
    hide ParseNode, ParseProperties, ParseChildren, AllNamed, WellNamed, AllWellNamed, At, Le, NodeBytes, PropertiesBytes, NodesBytes,
      Locate, LocateProperties, LocateAll, Tally, TallyAll, Templates;
    var ps, ns := n.properties, n.children;
    var after := at + 8 + |PropertiesBytes(ps)|;
    WellNamedParts(n, depth, at, s);
    FlatDt.NodeParts(source, at, n);
    FlatDt.NodeSize(n);
    FlatDt.AtBound(source, after, NodesBytes(ns));
    TallyGrows(s, n, depth);
    NamedSize(ps, ns);
    var entered := Statistics(s.nodes + 1, s.properties + |ps|, s.templates, Max(s.maximumDepth, depth));
    PropertiesComplete(source, at + 8, [], entered, ps);
    ChildrenComplete(source, after, depth + 1, [], Counted(entered, ps), ns);
    assert [] + LocateProperties(ps, at + 8) == LocateProperties(ps, at + 8);
    assert [] + LocateAll(ns, after) == LocateAll(ns, after);
    NodeBySteps(source, at, depth, s, |ps|, |ns|);
  }

  lemma {:induction false} ChildrenComplete(source: seq<byte>, at: nat, depth: nat, done: seq<FirmwareNode>, s: Statistics, ns: seq<Node>)
    requires At(source, at, NodesBytes(ns)) && AllWellNamed(ns, depth) && Within(TallyAll(s, ns, depth))
    ensures ParseChildren(source, at, depth, |ns|, done, s)
            == Ok(Parsed(done + LocateAll(ns, at), at + |NodesBytes(ns)|, TallyAll(s, ns, depth)))
    decreases ns, 0
  {
    hide ParseNode, ParseChildren, WellNamed, AllWellNamed, At, NodeBytes, NodesBytes, Locate, LocateAll, Tally, TallyAll;
    if ns == [] {
      ChildrenNil(source, at, depth, done, s);
      assert done + [] == done;
    } else {
      var n, rest := ns[0], ns[1..];
      var next := at + |NodeBytes(n)|;
      assert ns == [n] + rest;
      NodesCons(n, rest, depth, at, s);
      AtConcat(source, at, NodeBytes(n), NodesBytes(rest));
      TallyAllGrows(Tally(s, n, depth), rest, depth);
      NodeComplete(source, at, depth, s, n);
      ChildrenStep(source, at, depth, |ns|, done, s);
      ChildrenComplete(source, next, depth, done + [Locate(n, at)], Tally(s, n, depth), rest);
      assert done + ([Locate(n, at)] + LocateAll(rest, next)) == (done + [Locate(n, at)]) + LocateAll(rest, next);
    }
  }

  //////////////////////////////////////////////////////////////////////////////
  // The accepted language
  //////////////////////////////////////////////////////////////////////////////

  /** Parsing a layout of a parsable tree gives that tree with its offsets and exact statistics. */
  lemma ParseComplete(n: Node)
    requires Parsable(n)
    ensures Parse(NodeBytes(n)) == Ok(FirmwareTree(NodeBytes(n), Locate(n, 0), Tally(NOTHING, n, 0)))
  {
    hide ParseNode, NodeBytes, WellNamed, Tally, Locate;
    AtAll(NodeBytes(n), NodeBytes(n));
    NodeComplete(NodeBytes(n), 0, 0, NOTHING, n);
  }

  /** Only such layouts are parsed. */
  lemma ParseSound(source: seq<byte>) returns (n: Node)
    requires Parse(source).Ok?
    ensures Parsable(n) && NodeBytes(n) == source
    ensures Parse(source) == Ok(FirmwareTree(source, Locate(n, 0), Tally(NOTHING, n, 0)))
  {
    hide ParseNode, NodeBytes, WellNamed, Tally, Locate;
    n := NodeSound(source, 0, 0, NOTHING);
    AtAll(source, NodeBytes(n));
  }

  /** The parser accepts exactly the layouts of parsable trees, and each byte string has one. */
  lemma ParseExact(source: seq<byte>)
    ensures Parse(source).Ok? <==> exists n :: Parsable(n) && NodeBytes(n) == source
  {
    hide Parse, Parsable, NodeBytes;
    if Parse(source).Ok? {
      var n := ParseSound(source);
    }
    if exists n :: Parsable(n) && NodeBytes(n) == source {
      var n :| Parsable(n) && NodeBytes(n) == source;
      ParseComplete(n);
    }
  }

  //////////////////////////////////////////////////////////////////////////////
  // Runtime trees are firmware trees
  //////////////////////////////////////////////////////////////////////////////

  lemma StrictIsNamed(p: Property, depth: nat)
    requires FlatDt.StrictProperty(p, depth)
    ensures Named(p) && !IsTemplate(p)
  {
    hide BitAnd;
    LengthBits(p.rawLength);
  }

  lemma {:induction false} StrictPropertiesNamed(ps: seq<Property>, depth: nat)
    requires FlatDt.StrictProperties(ps, depth)
    ensures AllNamed(ps) && Templates(ps) == 0
  {
    hide FlatDt.StrictProperty, Named, IsTemplate;
    if ps != [] {
      var p, rest := ps[0], ps[1..];
      assert ps == [p] + rest;
      FlatDt.PropertiesCons(p, rest, depth);
      StrictIsNamed(p, depth);
      StrictPropertiesNamed(rest, depth);
      assert forall i :: 0 <= i < |rest| ==> ps[i + 1] == rest[i];
    }
  }

  lemma {:induction false} StrictIsWellNamed(n: Node, depth: nat, s: Statistics)
    requires FlatDt.StrictNode(n, depth)
    ensures WellNamed(n, depth)
    ensures var t, c := Tally(s, n, depth), FlatDt.Cost(n);
            t.nodes == s.nodes + c.nodes && t.properties == s.properties + c.properties && t.templates == s.templates
    decreases n, 1
  {
    hide FlatDt.StrictNode, FlatDt.StrictNodes, FlatDt.StrictProperties, FlatDt.Costs, AllNamed, WellNamed, AllWellNamed, Templates, Tally, TallyAll, FlatDt.Distinct,
      FlatDt.Names, FlatDt.NodeNames, FlatDt.NodeName, PropertiesBytes, LocateProperties, LocateAll, Locate, FlatDt.Cost;
    FlatDt.StrictNodeParts(n, depth);
    StrictPropertiesNamed(n.properties, depth);
    var entered := Counted(Statistics(s.nodes + 1, s.properties + |n.properties|, s.templates, Max(s.maximumDepth, depth)), n.properties);
    StrictAreWellNamed(n.children, depth + 1, entered);
    WellNamedParts(n, depth, 0, s);
  }

  lemma {:induction false} StrictAreWellNamed(ns: seq<Node>, depth: nat, s: Statistics)
    requires FlatDt.StrictNodes(ns, depth)
    ensures AllWellNamed(ns, depth)
    ensures var t, c := TallyAll(s, ns, depth), FlatDt.Costs(ns);
            t.nodes == s.nodes + c.nodes && t.properties == s.properties + c.properties && t.templates == s.templates
    decreases ns, 0
  {
    hide FlatDt.StrictNode, FlatDt.Cost, WellNamed, Tally;
    if ns != [] {
      StrictIsWellNamed(ns[0], depth, s);
      StrictAreWellNamed(ns[1..], depth, Tally(s, ns[0], depth));
    }
  }

  lemma CanonicalIsParsable(n: Node)
    requires FlatDt.Canonical(n)
    ensures Parsable(n) && Tally(NOTHING, n, 0).templates == 0
  {
    FlatDt.CostBytes(n);
    hide FlatDt.StrictNode, FlatDt.Cost, NodeBytes, Tally, WellNamed;
    StrictIsWellNamed(n, 0, NOTHING);
  }

  /**
   Every byte string the strict validator accepts is parsed here too, to the same tree with its
   offsets, without templates.
   */
  lemma AcceptedIsParsed(bytes: seq<byte>)
    requires FlatDt.Accepts(bytes)
    ensures Parse(bytes).Ok? && Parse(bytes).value.root == Locate(FlatDt.Decode(bytes).value, 0)
    ensures Parse(bytes).value.statistics.templates == 0
  {
    var n := FlatDt.Decode(bytes).value;
    FlatDt.DecodeExact(bytes, n);
    hide FlatDt.Decode, FlatDt.Canonical, Parse, Parsable, NodeBytes, Tally, Locate;
    CanonicalIsParsable(n);
    ParseComplete(n);
  }

  /** The bytes of a tree that are runtime bytes as they stand. */
  function ValidatedRuntimeBytes(tree: FirmwareTree): Result<seq<byte>, Error> {
    if tree.statistics.templates != 0 then Err(UnresolvedTemplates(tree.statistics.templates))
    else if !FlatDt.Accepts(tree.source) then Err(Runtime(FlatDt.Decode(tree.source).error))
    else Ok(tree.source)
  }

  /** A parsed tree has validated runtime bytes exactly when the strict validator accepts its source. */
  lemma RuntimeBytesExact(source: seq<byte>)
    requires Parse(source).Ok?
    ensures ValidatedRuntimeBytes(Parse(source).value).Ok? <==> FlatDt.Accepts(source)
    ensures FlatDt.Accepts(source) ==> ValidatedRuntimeBytes(Parse(source).value) == Ok(source)
  {
    if FlatDt.Accepts(source) {
      AcceptedIsParsed(source);
    }
    assert Parse(source).value.source == source;
    hide Parse, FlatDt.Decode;
  }

  //////////////////////////////////////////////////////////////////////////////
  // The parser as an object
  //////////////////////////////////////////////////////////////////////////////

  class Parser {
    const source: seq<byte>
    var position: nat
    var statistics: Statistics

    constructor (source: seq<byte>)
      ensures this.source == source && position == 0 && statistics == NOTHING
    {
      this.source := source;
      position := 0;
      statistics := NOTHING;
    }

    /** Advances over `count` bytes, or stays where it is. */
    method TakeNext(count: nat) returns (r: Result<seq<byte>, Error>)
      modifies this`position
      ensures r == Take(source, old(position), count)
      ensures position == if r.Ok? then old(position) + count else old(position)
    {
      var end := position + count;
      if end > |source| {
        return Err(Truncated);
      }
      r := Ok(source[position..end]);
      position := end;
    }

    method NextWord() returns (r: Result<u32, Error>)
      modifies this`position
      ensures r == Word(source, old(position))
      ensures position == if r.Ok? then old(position) + 4 else old(position)
    {
      var bytes :- TakeNext(4);
      FlatDt.LeBound4(bytes);
      return Ok(Le(bytes));
    }

    method NextProperty() returns (r: Result<FirmwareProperty, Error>)
      modifies this
      ensures match ParseProperty(source, old(position), old(statistics))
              case Ok(p) => r == Ok(p.item) && position == p.position && statistics == p.statistics
              case Err(e) => r == Err(e)
    {
      hide Le, BitAnd, Printable, AllZero, Terminator;
      var offset := position;
      var rawName :- TakeNext(32);
      var terminator := Terminator(rawName);
      if terminator == 0 || !Printable(rawName[..terminator]) || !AllZero(rawName[terminator..]) {
        return Err(InvalidPropertyName);
      }
      var rawLength :- NextWord();
      var length := BitAnd(rawLength, 0x7fff_ffff);
      var value :- TakeNext(length);
      var padding :- TakeNext(PaddingSize(length));
      if BitAnd(rawLength, TEMPLATE_FLAG) != 0 {
        statistics := statistics.(templates := statistics.templates + 1);
      }
      return Ok(FirmwareProperty(offset, Property(rawName, rawLength, value, padding)));
    }

    method NextProperties(count: nat) returns (r: Result<seq<FirmwareProperty>, Error>)
      modifies this
      ensures match ParseProperties(source, old(position), count, [], old(statistics))
              case Ok(ps) => r == Ok(ps.item) && position == ps.position && statistics == ps.statistics
              case Err(e) => r == Err(e)
    {
      hide ParseProperty, ParseProperties;
      var properties: seq<FirmwareProperty> := [];
      for i := 0 to count
        invariant ParseProperties(source, old(position), count, [], old(statistics))
               == ParseProperties(source, position, count - i, properties, statistics)
      {
        PropertiesStep(source, position, count - i, properties, statistics);
        var property :- NextProperty();
        properties := properties + [property];
      }
      PropertiesNil(source, position, properties, statistics);
      return Ok(properties);
    }

    /** Reads one node and everything below it. */
    method NextNode(depth: nat) returns (r: Result<FirmwareNode, Error>)
      requires Within(statistics)
      modifies this
      ensures match ParseNode(source, old(position), depth, old(statistics))
              case Ok(n) => r == Ok(n.item) && position == n.position && statistics == n.statistics && Within(statistics)
              case Err(e) => r == Err(e)
      decreases if depth > MAX_DEPTH then 0 else MAX_DEPTH + 1 - depth, 0
    {
      hide ParseProperties, ParseChildren, Le;
      var offset := position;
      ghost var before := statistics;
      if depth > MAX_DEPTH || statistics.nodes == MAX_NODES {
        return Err(LimitsExceeded);
      }
      var propertyCount :- NextWord();
      var childCount :- NextWord();
      if propertyCount > MAX_PROPERTIES_PER_NODE || childCount > MAX_CHILDREN_PER_NODE
         || propertyCount > MAX_PROPERTIES - statistics.properties || childCount > MAX_NODES - statistics.nodes - 1 {
        return Err(LimitsExceeded);
      }
      if propertyCount * 36 + childCount * 8 > |source| - position {
        return Err(Truncated);
      }
      statistics := Statistics(statistics.nodes + 1, statistics.properties + propertyCount, statistics.templates,
                               Max(statistics.maximumDepth, depth));
      ghost var entered := statistics;
      var properties :- NextProperties(propertyCount);
      assert Within(statistics) by {
        ghost var qs := PropertiesSound(source, offset + 8, propertyCount, [], entered);
      }
      var children :- NextChildren(childCount, depth + 1);
      return Ok(FirmwareNode(offset, properties, children));
    }

    method NextChildren(count: nat, depth: nat) returns (r: Result<seq<FirmwareNode>, Error>)
      requires Within(statistics)
      modifies this
      ensures match ParseChildren(source, old(position), depth, count, [], old(statistics))
              case Ok(ns) => r == Ok(ns.item) && position == ns.position && statistics == ns.statistics && Within(statistics)
              case Err(e) => r == Err(e)
      decreases if depth > MAX_DEPTH then 0 else MAX_DEPTH + 1 - depth, 1
    {
      hide ParseNode, ParseChildren;
      var children: seq<FirmwareNode> := [];
      for i := 0 to count
        invariant Within(statistics)
        invariant ParseChildren(source, old(position), depth, count, [], old(statistics))
               == ParseChildren(source, position, depth, count - i, children, statistics)
      {
        ChildrenStep(source, position, depth, count - i, children, statistics);
        var child :- NextNode(depth);
        children := children + [child];
      }
      ChildrenNil(source, position, depth, children, statistics);
      return Ok(children);
    }

    static method ParseSource(source: seq<byte>) returns (r: Result<FirmwareTree, Error>)
      ensures r == Parse(source)
    {
      if |source| > MAX_INPUT_BYTES {
        return Err(InputTooLarge);
      }
      hide ParseNode;
      var parser := new Parser(source);
      var root :- parser.NextNode(0);
      if parser.position != |source| {
        return Err(TrailingData);
      }
      return Ok(FirmwareTree(source, root, parser.statistics));
    }
  }
}
