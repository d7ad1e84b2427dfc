/**
 The strict runtime device-tree codec: an encoder with a preflight budget and a validator that
 trusts no count. The validator accepts exactly the layouts of canonical trees within the limits.
 */
module FlatDt {
  import opened Wrappers
  import opened Words
  import opened DeviceTree

  const MAX_SERIALIZED_SIZE: nat := 1024 * 1024
  const MAX_DEPTH: nat := 32
  const MAX_NODES: nat := 1024
  const MAX_PROPERTIES: nat := 4096
  const MAX_PROPERTIES_PER_NODE: nat := 64
  const MAX_CHILDREN_PER_NODE: nat := 64
  const MAX_NODE_NAME: nat := 63
  const MAX_PROPERTY_NAME: nat := 31

  datatype Error =
    | InvalidNodeName
    | InvalidPropertyName
    | DuplicateProperty
    | DuplicateChild
    | InvalidNameProperty
    | LimitsExceeded
    | Truncated
    | InvalidPadding
    | TrailingData

  //////////////////////////////////////////////////////////////////////////////
  // Budget
  //////////////////////////////////////////////////////////////////////////////

  datatype Counts = Counts(nodes: nat, properties: nat, bytes: nat)

  function Plus(a: Counts, b: Counts): Counts {
    Counts(a.nodes + b.nodes, a.properties + b.properties, a.bytes + b.bytes)
  }

  predicate Within(c: Counts) {
    c.nodes <= MAX_NODES && c.properties <= MAX_PROPERTIES && c.bytes <= MAX_SERIALIZED_SIZE
  }

  function AddBytes(b: Counts, n: nat): Result<Counts, Error> {
    if b.bytes + n > MAX_SERIALIZED_SIZE then Err(LimitsExceeded) else Ok(b.(bytes := b.bytes + n))
  }

  function AddNode(b: Counts, depth: nat, properties: nat, children: nat): Result<Counts, Error> {
    if depth > MAX_DEPTH || properties == 0 || properties > MAX_PROPERTIES_PER_NODE || children > MAX_CHILDREN_PER_NODE then
      Err(LimitsExceeded)
    else if b.nodes + 1 > MAX_NODES || b.properties + properties > MAX_PROPERTIES then
      Err(LimitsExceeded)
    else
      AddBytes(Counts(b.nodes + 1, b.properties + properties, b.bytes), 8)
  }

  /** Wire size of a property with a value of `size` bytes. */
  function PropertyWire(size: nat): Result<nat, Error> {
    if size > MAX_SERIALIZED_SIZE then Err(LimitsExceeded) else Ok(36 + BitAnd(size + 3, Not64(3)))
  }

  lemma Pow2Four()
    ensures Pow2(2) == 4
  {
  }

  lemma PropertyWireSize(size: nat)
    ensures PropertyWire(size) == if size > MAX_SERIALIZED_SIZE then Err(LimitsExceeded) else Ok(36 + size + PaddingSize(size))
  {
    hide BitAnd, Pow2;
    Pow2Four();
    if size <= MAX_SERIALIZED_SIZE {
      AndNotLow(size + 3, 2);
    }
  }

  //////////////////////////////////////////////////////////////////////////////
  // Names
  //////////////////////////////////////////////////////////////////////////////

  predicate NodeNameOk(name: seq<byte>, depth: nat) {
    |name| <= MAX_NODE_NAME && (name == [] ==> depth == 0) && Printable(name)
  }

  predicate PropertyNameOk(name: seq<byte>) {
    0 < |name| <= MAX_PROPERTY_NAME && Printable(name)
  }

  function Names(ps: seq<Property>): (r: seq<seq<byte>>)
    ensures |r| == |ps| && forall i :: 0 <= i < |ps| ==> r[i] == NameOf(ps[i])
  {
    seq(|ps|, i requires 0 <= i < |ps| => NameOf(ps[i]))
  }

  predicate Distinct<T(==)>(s: seq<T>) {
    forall i, j :: 0 <= i < j < |s| ==> s[i] != s[j]
  }

  /** The value of the `name` property without its final byte. */
  function NodeName(ps: seq<Property>): Option<seq<byte>> {
    if ps == [] then None
    else
      var p := ps[|ps| - 1];
      if NameOf(p) == NAME && p.value != [] then Some(p.value[..|p.value| - 1])
      else NodeName(ps[..|ps| - 1])
  }

  function NodeNames(ns: seq<Node>): (r: seq<Option<seq<byte>>>)
    ensures |r| == |ns| && forall i :: 0 <= i < |ns| ==> r[i] == NodeName(ns[i].properties)
  {
    seq(|ns|, i requires 0 <= i < |ns| => NodeName(ns[i].properties))
  }

  //////////////////////////////////////////////////////////////////////////////
  // Trees the codec accepts
  //////////////////////////////////////////////////////////////////////////////

  predicate StrictProperty(p: Property, depth: nat) {
    var t := Terminator(p.rawName);
    && PropertyShape(p) && p.rawLength <= MAX_SERIALIZED_SIZE
    && t < 32 && PropertyNameOk(p.rawName[..t]) && AllZero(p.rawName[t..]) && AllZero(p.padding)
    && (p.rawName[..t] == NAME ==>
          p.value != [] && p.value[|p.value| - 1] == 0 && NodeNameOk(p.value[..|p.value| - 1], depth))
  }

  predicate StrictNode(n: Node, depth: nat)
    decreases n, 1
  {
    && depth <= MAX_DEPTH
    && 0 < |n.properties| <= MAX_PROPERTIES_PER_NODE && |n.children| <= MAX_CHILDREN_PER_NODE
    && (forall i :: 0 <= i < |n.properties| ==> StrictProperty(n.properties[i], depth))
    && Distinct(Names(n.properties)) && NodeName(n.properties).Some?
    && StrictNodes(n.children, depth + 1)
    && Distinct(NodeNames(n.children))
  }

  predicate StrictNodes(ns: seq<Node>, depth: nat)
    decreases ns, 0
  {
    ns == [] || (StrictNode(ns[0], depth) && StrictNodes(ns[1..], depth))
  }

  function Cost(n: Node): Counts
    decreases n, 1
  {
    Plus(Counts(1, |n.properties|, 8 + |PropertiesBytes(n.properties)|), Costs(n.children))
  }

  function Costs(ns: seq<Node>): Counts
    decreases ns, 0
  {
    if ns == [] then Counts(0, 0, 0) else Plus(Cost(ns[0]), Costs(ns[1..]))
  }

  /** The canonical trees within the limits. */
  predicate Canonical(n: Node) {
    StrictNode(n, 0) && Within(Cost(n))
  }

  //////////////////////////////////////////////////////////////////////////////
  // The validator as a function
  //////////////////////////////////////////////////////////////////////////////

  datatype Read<T> = Read(item: T, cursor: nat, budget: Counts)

  function Take(bytes: seq<byte>, cursor: nat, size: nat): Result<seq<byte>, Error> {
    if cursor + size <= |bytes| then Ok(bytes[cursor..cursor + size]) else Err(Truncated)
  }

  function ReadU32(bytes: seq<byte>, cursor: nat): Result<u32, Error> {
    if cursor + 4 <= |bytes| then LeBound4(bytes[cursor..cursor + 4]); Ok(Le(bytes[cursor..cursor + 4]))
    else Err(Truncated)
  }

  lemma LeBound4(b: seq<byte>)
    requires |b| == 4
    ensures Le(b) < 0x1_0000_0000
  {
    Pow2Word();
    LeBound(b);
  }

  function ReadProperty(bytes: seq<byte>, cursor: nat, depth: nat, done: seq<Property>, budget: Counts): Result<Read<Property>, Error> {
    var wireName :- Take(bytes, cursor, 32);
    var t := Terminator(wireName);
    if t == 32 || !PropertyNameOk(wireName[..t]) || !AllZero(wireName[t..]) then Err(InvalidPropertyName) else
    if wireName[..t] in Names(done) then Err(DuplicateProperty) else
    var size :- ReadU32(bytes, cursor + 32);
    var wire :- PropertyWire(size);
    var spent :- AddBytes(budget, wire);
    var value :- Take(bytes, cursor + 36, size);
    if wireName[..t] == NAME && (value == [] || value[|value| - 1] != 0) then Err(InvalidNameProperty) else
    if wireName[..t] == NAME && !NodeNameOk(value[..|value| - 1], depth) then Err(InvalidNodeName) else
    var padding :- Take(bytes, cursor + 36 + size, PaddingSize(size));
    if !AllZero(padding) then Err(InvalidPadding) else
    Ok(Read(Property(wireName, size, value, padding), cursor + 36 + size + PaddingSize(size), spent))
  }

  function ReadProperties(bytes: seq<byte>, cursor: nat, depth: nat, count: nat, done: seq<Property>, budget: Counts): Result<Read<seq<Property>>, Error>
    decreases count
  {
    if count == 0 then Ok(Read(done, cursor, budget)) else
    var next :- ReadProperty(bytes, cursor, depth, done, budget);
    ReadProperties(bytes, next.cursor, depth, count - 1, done + [next.item], next.budget)
  }

  function ReadNode(bytes: seq<byte>, cursor: nat, depth: nat, budget: Counts): Result<Read<Node>, Error>
    decreases if depth > MAX_DEPTH then 0 else MAX_DEPTH + 1 - depth, 0, 0
  {
    var properties :- ReadU32(bytes, cursor);
    var children :- ReadU32(bytes, cursor + 4);
    var counted :- AddNode(budget, depth, properties, children);
    var ps :- ReadProperties(bytes, cursor + 8, depth, properties, [], counted);
    if NodeName(ps.item).None? then Err(InvalidNameProperty) else
    var cs :- ReadChildren(bytes, ps.cursor, depth + 1, children, [], ps.budget);
    Ok(Read(Node(ps.item, cs.item), cs.cursor, cs.budget))
  }

  function ReadChildren(bytes: seq<byte>, cursor: nat, depth: nat, count: nat, done: seq<Node>, budget: Counts): Result<Read<seq<Node>>, Error>
    decreases if depth > MAX_DEPTH then 0 else MAX_DEPTH + 1 - depth, 1, count
  {
    if count == 0 then Ok(Read(done, cursor, budget)) else
    var next :- ReadNode(bytes, cursor, depth, budget);
    if NodeName(next.item.properties) in NodeNames(done) then Err(DuplicateChild) else
    ReadChildren(bytes, next.cursor, depth, count - 1, done + [next.item], next.budget)
  }

  /** The tree of an accepted byte string, or why it is refused. */
  function Decode(bytes: seq<byte>): Result<Node, Error> {
    if |bytes| > MAX_SERIALIZED_SIZE then Err(LimitsExceeded) else
    var root :- ReadNode(bytes, 0, 0, Counts(0, 0, 0));
    if root.cursor != |bytes| then Err(TrailingData) else Ok(root.item)
  }

  predicate Accepts(bytes: seq<byte>) {
    Decode(bytes).Ok?
  }

  //////////////////////////////////////////////////////////////////////////////
  // What the validator reads
  //////////////////////////////////////////////////////////////////////////////

  lemma NodeSize(n: Node)
    ensures |NodeBytes(n)| == 8 + |PropertiesBytes(n.properties)| + |NodesBytes(n.children)|
  {
  }

  lemma {:induction false} CostBytes(n: Node)
    ensures Cost(n).bytes == |NodeBytes(n)| && Cost(n).nodes >= 1 + |n.children|
    decreases n, 1
  {
    CostsBytes(n.children);
  }

  lemma {:induction false} CostsBytes(ns: seq<Node>)
    ensures Costs(ns).bytes == |NodesBytes(ns)| && Costs(ns).nodes >= |ns|
    decreases ns, 0
  {
    if ns != [] {
      CostBytes(ns[0]);
      CostsBytes(ns[1..]);
    }
  }

  lemma PropertyParts(bytes: seq<byte>, cursor: nat, p: Property)
    requires PropertyShape(p) && p.rawLength < 0x8000_0000
    ensures At(bytes, cursor, PropertyBytes(p)) <==>
              && Slice(bytes, cursor, 32) == Some(p.rawName)
              && cursor + 36 <= |bytes| && Le(bytes[cursor + 32..cursor + 36]) == p.rawLength
              && Slice(bytes, cursor + 36, p.rawLength) == Some(p.value)
              && Slice(bytes, cursor + 36 + p.rawLength, PaddingSize(p.rawLength)) == Some(p.padding)
  {
    hide At, Le, ToLe;
    AtConcat(bytes, cursor, p.rawName, ToLe(p.rawLength, 4) + (p.value + p.padding));
    AtConcat(bytes, cursor + 32, ToLe(p.rawLength, 4), p.value + p.padding);
    AtConcat(bytes, cursor + 36, p.value, p.padding);
    WordAt(bytes, cursor + 32, p.rawLength);
    SliceAt(bytes, cursor, p.rawName);
    SliceAt(bytes, cursor + 36, p.value);
    SliceAt(bytes, cursor + 36 + p.rawLength, p.padding);
  }

  /** `p` can be read at the cursor. */
  predicate Readable(bytes: seq<byte>, cursor: nat, depth: nat, done: seq<Property>, budget: Counts, p: Property) {
    && At(bytes, cursor, PropertyBytes(p)) && StrictProperty(p, depth) && NameOf(p) !in Names(done)
    && budget.bytes + |PropertyBytes(p)| <= MAX_SERIALIZED_SIZE
  }

  function Spend(b: Counts, n: nat): Counts {
    b.(bytes := b.bytes + n)
  }

  lemma PropertySound(bytes: seq<byte>, cursor: nat, depth: nat, done: seq<Property>, budget: Counts)
    requires ReadProperty(bytes, cursor, depth, done, budget).Ok?
    ensures var r := ReadProperty(bytes, cursor, depth, done, budget).value;
            && Readable(bytes, cursor, depth, done, budget, r.item)
            && r.cursor == cursor + |PropertyBytes(r.item)| && r.budget == Spend(budget, |PropertyBytes(r.item)|)
  {
    hide PropertyBytes, Le, BitAnd, Names, Printable, AllZero, Terminator, At, PropertyWire;
    var r := ReadProperty(bytes, cursor, depth, done, budget).value;
    PropertyWireSize(r.item.rawLength);
    PropertyParts(bytes, cursor, r.item);
    PropertySize(r.item);
  }

  lemma PropertyComplete(bytes: seq<byte>, cursor: nat, depth: nat, done: seq<Property>, budget: Counts, p: Property)
    requires Readable(bytes, cursor, depth, done, budget, p)
    ensures ReadProperty(bytes, cursor, depth, done, budget)
            == Ok(Read(p, cursor + |PropertyBytes(p)|, Spend(budget, |PropertyBytes(p)|)))
  {
    hide PropertyBytes, Le, BitAnd, Names, Printable, AllZero, Terminator, At, PropertyWire;
    PropertyWireSize(p.rawLength);
    PropertyParts(bytes, cursor, p);
    PropertySize(p);
  }

  predicate StrictProperties(ps: seq<Property>, depth: nat) {
    forall i :: 0 <= i < |ps| ==> StrictProperty(ps[i], depth)
  }

  lemma NamesExtended(done: seq<Property>, p: Property)
    ensures Distinct(Names(done + [p])) <==> Distinct(Names(done)) && NameOf(p) !in Names(done)
  {
    hide NameOf;
    var before, after := Names(done), Names(done + [p]);
    assert after == before + [NameOf(p)];
    hide Names;
    DistinctExtended(before, NameOf(p));
  }

  lemma DistinctExtended<T>(s: seq<T>, x: T)
    ensures Distinct(s + [x]) <==> Distinct(s) && x !in s
  {
    var t := s + [x];
    if Distinct(t) {
      assert forall i, j :: 0 <= i < j < |s| ==> t[i] == s[i] && t[j] == s[j] && t[i] != t[j];
      assert forall i :: 0 <= i < |s| ==> t[i] == s[i] && t[i] != t[|s|];
    }
  }

  lemma {:induction false} DistinctPrefix<T>(s: seq<T>, k: nat)
    requires k <= |s| && Distinct(s)
    ensures Distinct(s[..k])
  {
    assert forall i, j :: 0 <= i < j < k ==> s[..k][i] == s[i] && s[..k][j] == s[j];
  }

  lemma PropertiesCons(p: Property, rest: seq<Property>, depth: nat)
    ensures PropertiesBytes([p] + rest) == PropertyBytes(p) + PropertiesBytes(rest)
    ensures StrictProperties([p] + rest, depth) <==> StrictProperty(p, depth) && StrictProperties(rest, depth)
  {
    hide PropertyBytes, StrictProperty;
    var ps := [p] + rest;
    assert ps[1..] == rest;
    assert forall i :: 0 <= i < |rest| ==> ps[i + 1] == rest[i];
  }

  lemma PropertiesNil(bytes: seq<byte>, cursor: nat, depth: nat, done: seq<Property>, budget: Counts)
    ensures ReadProperties(bytes, cursor, depth, 0, done, budget) == Ok(Read(done, cursor, budget))
    ensures PropertiesBytes([]) == [] && StrictProperties([], depth)
    ensures cursor <= |bytes| ==> At(bytes, cursor, [])
  {
  }

  lemma ReadPropertiesStep(bytes: seq<byte>, cursor: nat, depth: nat, count: nat, done: seq<Property>, budget: Counts)
    requires count > 0
    ensures ReadProperties(bytes, cursor, depth, count, done, budget) ==
            var next := ReadProperty(bytes, cursor, depth, done, budget);
            if next.Err? then Err(next.error)
            else ReadProperties(bytes, next.value.cursor, depth, count - 1, done + [next.value.item], next.value.budget)
  {
    hide ReadProperty;
  }

  lemma {:induction false} PropertiesSound(bytes: seq<byte>, cursor: nat, depth: nat, count: nat, done: seq<Property>, budget: Counts)
      returns (ps: seq<Property>)
    requires ReadProperties(bytes, cursor, depth, count, done, budget).Ok?
    requires Distinct(Names(done)) && budget.bytes <= MAX_SERIALIZED_SIZE && cursor <= |bytes|
    ensures var r := ReadProperties(bytes, cursor, depth, count, done, budget).value;
            && |ps| == count && r.item == done + ps && StrictProperties(ps, depth) && Distinct(Names(done + ps))
            && At(bytes, cursor, PropertiesBytes(ps))
            && r.cursor == cursor + |PropertiesBytes(ps)| && r.budget == Spend(budget, |PropertiesBytes(ps)|)
            && r.budget.bytes <= MAX_SERIALIZED_SIZE
    decreases count
  {
    hide ReadProperty, ReadProperties, StrictProperty, StrictProperties, At, Names, Distinct, PropertyBytes, PropertiesBytes;
    if count == 0 {
      ps := [];
      assert done + ps == done;
      PropertiesNil(bytes, cursor, depth, done, budget);
    } else {
      ReadPropertiesStep(bytes, cursor, depth, count, done, budget);
      var next := ReadProperty(bytes, cursor, depth, done, budget).value;
      PropertySound(bytes, cursor, depth, done, budget);
      NamesExtended(done, next.item);
      AtBound(bytes, cursor, PropertyBytes(next.item));
      var rest := PropertiesSound(bytes, next.cursor, depth, count - 1, done + [next.item], next.budget);
      ps := [next.item] + rest;
      assert done + ps == (done + [next.item]) + rest;
      PropertiesCons(next.item, rest, depth);
      AtConcat(bytes, cursor, PropertyBytes(next.item), PropertiesBytes(rest));
    }
  }

  lemma AtBound(s: seq<byte>, at: nat, part: seq<byte>)
    requires At(s, at, part)
    ensures at + |part| <= |s|
  {
  }

  lemma {:induction false} PropertiesComplete(bytes: seq<byte>, cursor: nat, depth: nat, done: seq<Property>, budget: Counts, ps: seq<Property>)
    requires StrictProperties(ps, depth) && Distinct(Names(done + ps))
    requires At(bytes, cursor, PropertiesBytes(ps)) && budget.bytes + |PropertiesBytes(ps)| <= MAX_SERIALIZED_SIZE
    ensures ReadProperties(bytes, cursor, depth, |ps|, done, budget)
            == Ok(Read(done + ps, cursor + |PropertiesBytes(ps)|, Spend(budget, |PropertiesBytes(ps)|)))
    decreases ps
  {
    hide ReadProperty, ReadProperties, StrictProperty, StrictProperties, At, Names, Distinct, PropertyBytes, PropertiesBytes;
    if ps == [] {
      assert done + ps == done;
      PropertiesNil(bytes, cursor, depth, done, budget);
    } else {
      var p, rest := ps[0], ps[1..];
      assert done + ps == (done + [p]) + rest;
      assert ps == [p] + rest;
      NamesPrefix(done + [p], rest);
      NamesExtended(done, p);
      PropertiesCons(p, rest, depth);
      AtConcat(bytes, cursor, PropertyBytes(p), PropertiesBytes(rest));
      PropertyComplete(bytes, cursor, depth, done, budget, p);
      ReadPropertiesStep(bytes, cursor, depth, |ps|, done, budget);
      PropertiesComplete(bytes, cursor + |PropertyBytes(p)|, depth, done + [p], Spend(budget, |PropertyBytes(p)|), rest);
    }
  }

  lemma NamesPrefix(a: seq<Property>, b: seq<Property>)
    requires Distinct(Names(a + b))
    ensures Distinct(Names(a))
  {
    DistinctPrefix(Names(a + b), |a|);
    assert Names(a) == Names(a + b)[..|a|];
  }

  //////////////////////////////////////////////////////////////////////////////
  // Nodes
  //////////////////////////////////////////////////////////////////////////////

  /** `n` can be read at the cursor. */
  predicate NodeReadable(bytes: seq<byte>, cursor: nat, depth: nat, budget: Counts, n: Node) {
    At(bytes, cursor, NodeBytes(n)) && StrictNode(n, depth) && Within(Plus(budget, Cost(n)))
  }

  lemma NodeParts(bytes: seq<byte>, cursor: nat, n: Node)
    requires |n.properties| < U32_LIMIT && |n.children| < U32_LIMIT
    ensures At(bytes, cursor, NodeBytes(n)) <==>
              && cursor + 8 <= |bytes|
              && Le(bytes[cursor..cursor + 4]) == |n.properties| && Le(bytes[cursor + 4..cursor + 8]) == |n.children|
              && At(bytes, cursor + 8, PropertiesBytes(n.properties))
              && At(bytes, cursor + 8 + |PropertiesBytes(n.properties)|, NodesBytes(n.children))
  {
    var ps, ns := PropertiesBytes(n.properties), NodesBytes(n.children);
    AtConcat(bytes, cursor, ToLe(|n.properties|, 4), ToLe(|n.children|, 4) + (ps + ns));
    AtConcat(bytes, cursor + 4, ToLe(|n.children|, 4), ps + ns);
    AtConcat(bytes, cursor + 8, ps, ns);
    WordAt(bytes, cursor, |n.properties|);
    WordAt(bytes, cursor + 4, |n.children|);
    hide PropertiesBytes, NodesBytes, Le, ToLe;
  }

  /** Reading a node, step by step. */
  lemma ReadNodeSteps(bytes: seq<byte>, cursor: nat, depth: nat, budget: Counts)
    requires ReadNode(bytes, cursor, depth, budget).Ok? && Within(budget)
    ensures cursor + 8 <= |bytes| && depth <= MAX_DEPTH
    ensures var properties, children := Le(bytes[cursor..cursor + 4]), Le(bytes[cursor + 4..cursor + 8]);
            && 0 < properties <= MAX_PROPERTIES_PER_NODE && children <= MAX_CHILDREN_PER_NODE
            && var counted := Plus(budget, Counts(1, properties, 8));
            && Within(counted)
            && var ps := ReadProperties(bytes, cursor + 8, depth, properties, [], counted);
            && ps.Ok? && NodeName(ps.value.item).Some?
            && var cs := ReadChildren(bytes, ps.value.cursor, depth + 1, children, [], ps.value.budget);
            && cs.Ok?
            && ReadNode(bytes, cursor, depth, budget).value == Read(Node(ps.value.item, cs.value.item), cs.value.cursor, cs.value.budget)
  {
    hide ReadProperties, ReadChildren, NodeName, Le;
  }

  lemma ReadNodeBySteps(bytes: seq<byte>, cursor: nat, depth: nat, budget: Counts, properties: nat, children: nat)
    requires cursor + 8 <= |bytes| && depth <= MAX_DEPTH
    requires properties == Le(bytes[cursor..cursor + 4]) && children == Le(bytes[cursor + 4..cursor + 8])
    requires 0 < properties <= MAX_PROPERTIES_PER_NODE && children <= MAX_CHILDREN_PER_NODE
    requires Within(Plus(budget, Counts(1, properties, 8)))
    ensures ReadNode(bytes, cursor, depth, budget) ==
            var ps :- ReadProperties(bytes, cursor + 8, depth, properties, [], Plus(budget, Counts(1, properties, 8)));
            if NodeName(ps.item).None? then Err(InvalidNameProperty) else
            var cs :- ReadChildren(bytes, ps.cursor, depth + 1, children, [], ps.budget);
            Ok(Read(Node(ps.item, cs.item), cs.cursor, cs.budget))
  {
    hide ReadProperties, ReadChildren, NodeName, Le;
  }

  lemma StrictNodeParts(n: Node, depth: nat)
    ensures StrictNode(n, depth) <==>
              && depth <= MAX_DEPTH && 0 < |n.properties| <= MAX_PROPERTIES_PER_NODE && |n.children| <= MAX_CHILDREN_PER_NODE
              && StrictProperties(n.properties, depth) && Distinct(Names(n.properties)) && NodeName(n.properties).Some?
              && StrictNodes(n.children, depth + 1) && Distinct(NodeNames(n.children))
    ensures Cost(n) == Plus(Counts(1, |n.properties|, 8 + |PropertiesBytes(n.properties)|), Costs(n.children))
  {
    hide StrictProperty, Distinct, Names, NodeName, NodeNames, StrictNodes, PropertiesBytes, Costs;
  }

  lemma NoNames()
    ensures Distinct(Names([])) && Distinct(NodeNames([]))
  {
  }

  lemma {:induction false} NodeSound(bytes: seq<byte>, cursor: nat, depth: nat, budget: Counts)
    requires ReadNode(bytes, cursor, depth, budget).Ok? && Within(budget)
    ensures var r := ReadNode(bytes, cursor, depth, budget).value;
            && NodeReadable(bytes, cursor, depth, budget, r.item)
            && r.cursor == cursor + |NodeBytes(r.item)| && r.budget == Plus(budget, Cost(r.item))
            && r.cursor <= |bytes| && Within(r.budget)
    decreases if depth > MAX_DEPTH then 0 else MAX_DEPTH + 1 - depth, 0, 0
  {
    hide ReadNode, ReadProperties, ReadChildren, StrictProperties, StrictNode, StrictNodes, Names, NodeNames, Distinct, NodeName,
      NodeBytes, PropertiesBytes, NodesBytes, Cost, Costs, At, Le;
    ReadNodeSteps(bytes, cursor, depth, budget);
    var properties, children := Le(bytes[cursor..cursor + 4]), Le(bytes[cursor + 4..cursor + 8]);
    var counted := Plus(budget, Counts(1, properties, 8));
    var ps := ReadProperties(bytes, cursor + 8, depth, properties, [], counted).value;
    var n := ReadNode(bytes, cursor, depth, budget).value.item;
    NoNames();
    var qs := PropertiesSound(bytes, cursor + 8, depth, properties, [], counted);
    assert [] + qs == qs;
    AtBound(bytes, cursor + 8, PropertiesBytes(qs));
    var cs := ChildrenSound(bytes, ps.cursor, depth + 1, children, [], ps.budget);
    assert [] + cs == cs;
    AtBound(bytes, ps.cursor, NodesBytes(cs));
    assert n == Node(qs, cs);
    NodeParts(bytes, cursor, n);
    NodeSize(n);
    StrictNodeParts(n, depth);
  }

  lemma NodesCons(n: Node, rest: seq<Node>, depth: nat)
    ensures NodesBytes([n] + rest) == NodeBytes(n) + NodesBytes(rest)
    ensures Costs([n] + rest) == Plus(Cost(n), Costs(rest))
    ensures StrictNodes([n] + rest, depth) <==> StrictNode(n, depth) && StrictNodes(rest, depth)
  {
    hide NodeBytes, StrictNode, Cost;
    var ns := [n] + rest;
    assert ns[1..] == rest;
  }

  lemma ChildrenNil(bytes: seq<byte>, cursor: nat, depth: nat, done: seq<Node>, budget: Counts)
    ensures ReadChildren(bytes, cursor, depth, 0, done, budget) == Ok(Read(done, cursor, budget))
    ensures NodesBytes([]) == [] && StrictNodes([], depth) && Costs([]) == Counts(0, 0, 0)
    ensures cursor <= |bytes| ==> At(bytes, cursor, [])
  {
  }

  lemma ReadChildrenStep(bytes: seq<byte>, cursor: nat, depth: nat, count: nat, done: seq<Node>, budget: Counts)
    requires count > 0
    ensures ReadChildren(bytes, cursor, depth, count, done, budget) ==
            var next := ReadNode(bytes, cursor, depth, budget);
            if next.Err? then Err(next.error)
            else if NodeName(next.value.item.properties) in NodeNames(done) then Err(DuplicateChild)
            else ReadChildren(bytes, next.value.cursor, depth, count - 1, done + [next.value.item], next.value.budget)
  {
    hide ReadNode, NodeName;
  }

  lemma {:induction false} ChildrenSound(bytes: seq<byte>, cursor: nat, depth: nat, count: nat, done: seq<Node>, budget: Counts)
      returns (ns: seq<Node>)
    requires ReadChildren(bytes, cursor, depth, count, done, budget).Ok?
    requires Within(budget) && Distinct(NodeNames(done)) && cursor <= |bytes|
    ensures var r := ReadChildren(bytes, cursor, depth, count, done, budget).value;
            && |ns| == count && r.item == done + ns && StrictNodes(ns, depth) && Distinct(NodeNames(done + ns))
            && At(bytes, cursor, NodesBytes(ns)) && Within(Plus(budget, Costs(ns)))
            && r.cursor == cursor + |NodesBytes(ns)| && r.budget == Plus(budget, Costs(ns))
    decreases if depth > MAX_DEPTH then 0 else MAX_DEPTH + 1 - depth, 1, count
  {
    hide ReadNode, ReadChildren, At, StrictNode, StrictNodes, NodeName, NodeNames, Distinct, NodeBytes, NodesBytes, Cost, Costs;
    if count == 0 {
      ns := [];
      assert done + ns == done;
      ChildrenNil(bytes, cursor, depth, done, budget);
    } else {
      ReadChildrenStep(bytes, cursor, depth, count, done, budget);
      var next := ReadNode(bytes, cursor, depth, budget).value;
      NodeSound(bytes, cursor, depth, budget);
      NodeNamesExtended(done, next.item);
      var rest := ChildrenSound(bytes, next.cursor, depth, count - 1, done + [next.item], next.budget);
      ns := [next.item] + rest;
      assert done + ns == (done + [next.item]) + rest;
      NodesCons(next.item, rest, depth);
      AtConcat(bytes, cursor, NodeBytes(next.item), NodesBytes(rest));
    }
  }

  lemma NodeNamesExtended(done: seq<Node>, n: Node)
    ensures Distinct(NodeNames(done + [n])) <==> Distinct(NodeNames(done)) && NodeName(n.properties) !in NodeNames(done)
  {
    hide NodeName;
    assert NodeNames(done + [n]) == NodeNames(done) + [NodeName(n.properties)];
    hide NodeNames;
    DistinctExtended(NodeNames(done), NodeName(n.properties));
  }

  lemma NodeNamesPrefix(a: seq<Node>, b: seq<Node>)
    requires Distinct(NodeNames(a + b))
    ensures Distinct(NodeNames(a))
  {
    DistinctPrefix(NodeNames(a + b), |a|);
    assert NodeNames(a) == NodeNames(a + b)[..|a|];
  }

  lemma {:induction false} NodeComplete(bytes: seq<byte>, cursor: nat, depth: nat, budget: Counts, n: Node)
    requires NodeReadable(bytes, cursor, depth, budget, n)
    ensures ReadNode(bytes, cursor, depth, budget) == Ok(Read(n, cursor + |NodeBytes(n)|, Plus(budget, Cost(n))))
    decreases n, 1
  {
    hide ReadNode, ReadProperties, ReadChildren, StrictProperties, StrictNode, StrictNodes, Names, NodeNames, Distinct, NodeName,
      NodeBytes, PropertiesBytes, NodesBytes, Cost, Costs, At, Le;
    var ps, ns := n.properties, n.children;
    StrictNodeParts(n, depth);
    NodeParts(bytes, cursor, n);
    NodeSize(n);
    CostsBytes(ns);
    assert [] + ps == ps && [] + ns == ns;
    var counted := Plus(budget, Counts(1, |ps|, 8));
    PropertiesComplete(bytes, cursor + 8, depth, [], counted, ps);
    ChildrenComplete(bytes, cursor + 8 + |PropertiesBytes(ps)|, depth + 1, [], Spend(counted, |PropertiesBytes(ps)|), ns);
    ReadNodeBySteps(bytes, cursor, depth, budget, |ps|, |ns|);
  }

  lemma {:induction false} ChildrenComplete(bytes: seq<byte>, cursor: nat, depth: nat, done: seq<Node>, budget: Counts, ns: seq<Node>)
    requires StrictNodes(ns, depth) && Distinct(NodeNames(done + ns))
    requires At(bytes, cursor, NodesBytes(ns)) && Within(Plus(budget, Costs(ns)))
    ensures ReadChildren(bytes, cursor, depth, |ns|, done, budget)
            == Ok(Read(done + ns, cursor + |NodesBytes(ns)|, Plus(budget, Costs(ns))))
    decreases ns, 0
  {
    hide ReadNode, ReadChildren, At, StrictNode, StrictNodes, NodeName, NodeNames, Distinct, NodeBytes, NodesBytes, Cost, Costs;
    if ns == [] {
      assert done + ns == done;
      ChildrenNil(bytes, cursor, depth, done, budget);
    } else {
      var n, rest := ns[0], ns[1..];
      assert done + ns == (done + [n]) + rest;
      assert ns == [n] + rest;
      NodeNamesPrefix(done + [n], rest);
      NodeNamesExtended(done, n);
      NodesCons(n, rest, depth);
      AtConcat(bytes, cursor, NodeBytes(n), NodesBytes(rest));
      NodeComplete(bytes, cursor, depth, budget, n);
      ReadChildrenStep(bytes, cursor, depth, |ns|, done, budget);
      ChildrenComplete(bytes, cursor + |NodeBytes(n)|, depth, done + [n], Plus(budget, Cost(n)), rest);
    }
  }

  //////////////////////////////////////////////////////////////////////////////
  // The accepted language
  //////////////////////////////////////////////////////////////////////////////

  /** Decoding succeeds with exactly the canonical tree the bytes lay out. */
  lemma DecodeExact(bytes: seq<byte>, n: Node)
    ensures Decode(bytes) == Ok(n) <==> Canonical(n) && NodeBytes(n) == bytes
  {
    var none := Counts(0, 0, 0);
    assert Plus(none, Cost(n)) == Cost(n);
    CostBytes(n);
    if Decode(bytes) == Ok(n) {
      NodeSound(bytes, 0, 0, none);
      AtAll(bytes, NodeBytes(n));
    }
    if Canonical(n) && NodeBytes(n) == bytes {
      AtAll(bytes, NodeBytes(n));
      NodeComplete(bytes, 0, 0, none, n);
    }
    hide ReadNode, NodeBytes, Cost, StrictNode;
  }

  /** The validator accepts exactly the layouts of canonical trees. */
  lemma AcceptsExact(bytes: seq<byte>)
    ensures Accepts(bytes) <==> exists n :: Canonical(n) && NodeBytes(n) == bytes
  {
    hide Decode, Canonical, NodeBytes;
    if Accepts(bytes) {
      DecodeExact(bytes, Decode(bytes).value);
    }
    if exists n :: Canonical(n) && NodeBytes(n) == bytes {
      var n :| Canonical(n) && NodeBytes(n) == bytes;
      DecodeExact(bytes, n);
    }
  }

  /** No accepted byte string is a proper prefix of another one. */
  lemma PrefixFree(bytes: seq<byte>, more: seq<byte>)
    requires Accepts(bytes) && Accepts(bytes + more)
    ensures more == []
  {
    var n, m := Decode(bytes).value, Decode(bytes + more).value;
    var none := Counts(0, 0, 0);
    DecodeExact(bytes, n);
    DecodeExact(bytes + more, m);
    AtAll(bytes, NodeBytes(n));
    AtExtended(bytes, 0, NodeBytes(n), more);
    assert Plus(none, Cost(n)) == Cost(n);
    hide Decode, NodeBytes, Cost, StrictNode, ReadNode;
    NodeComplete(bytes + more, 0, 0, none, n);
    AtAll(bytes + more, NodeBytes(m));
    assert Plus(none, Cost(m)) == Cost(m);
    NodeComplete(bytes + more, 0, 0, none, m);
  }
}
