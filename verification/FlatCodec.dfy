/**
 The runtime device-tree codec as the program runs it: a budget that is spent as the tree is
 walked, a cursor that moves over the bytes, and an output buffer that grows.
 */
module FlatCodec {
  import opened Wrappers
  import opened Words
  import opened DeviceTree
  import opened FlatDt
  import opened FlatEncode

  class Budget {
    var nodes: nat
    var properties: nat
    var bytes: nat

    constructor ()
      ensures View() == Counts(0, 0, 0)
    {
      nodes, properties, bytes := 0, 0, 0;
    }

    function View(): Counts
      reads this
    {
      Counts(nodes, properties, bytes)
    }

    method Spend(count: nat) returns (r: Result<(), Error>)
      modifies this
      ensures r.Ok? <==> AddBytes(old(View()), count).Ok?
      ensures r.Ok? ==> View() == AddBytes(old(View()), count).value
      ensures r.Err? ==> r.error == AddBytes(old(View()), count).error
    {
      bytes := bytes + count;
      if bytes > MAX_SERIALIZED_SIZE {
        return Err(LimitsExceeded);
      }
      return Ok(());
    }

    method EnterNode(depth: nat, propertyCount: nat, childCount: nat) returns (r: Result<(), Error>)
      modifies this
      ensures r.Ok? <==> AddNode(old(View()), depth, propertyCount, childCount).Ok?
      ensures r.Ok? ==> View() == AddNode(old(View()), depth, propertyCount, childCount).value
      ensures r.Err? ==> r.error == AddNode(old(View()), depth, propertyCount, childCount).error
    {
      if depth > MAX_DEPTH || propertyCount == 0 || propertyCount > MAX_PROPERTIES_PER_NODE || childCount > MAX_CHILDREN_PER_NODE {
        return Err(LimitsExceeded);
      }
      nodes := nodes + 1;
      properties := properties + propertyCount;
      if nodes > MAX_NODES || properties > MAX_PROPERTIES {
        return Err(LimitsExceeded);
      }
      r := Spend(8);
    }
  }

  //////////////////////////////////////////////////////////////////////////////
  // Validation
  //////////////////////////////////////////////////////////////////////////////

  /** Accepts or refuses exactly as Decode does. */
  method Validate(bytes: seq<byte>) returns (r: Result<(), Error>)
    ensures r.Ok? <==> Accepts(bytes)
    ensures r.Err? ==> r.error == Decode(bytes).error
  {
    if |bytes| > MAX_SERIALIZED_SIZE {
      return Err(LimitsExceeded);
    }
    hide ReadNode;
    var budget := new Budget();
    var name, cursor := ReadNodeAt(bytes, 0, 0, budget);
    if name.Err? {
      return Err(name.error);
    }
    if cursor != |bytes| {
      return Err(TrailingData);
    }
    return Ok(());
  }

  /** One turn of the property loop: the name read, and the node name when the property is `name`. */
  method ReadPropertyAt(bytes: seq<byte>, cursor: nat, depth: nat, names: seq<seq<byte>>, budget: Budget, ghost done: seq<Property>)
      returns (r: Result<(seq<byte>, Option<seq<byte>>), Error>, next: nat)
    requires names == Names(done)
    modifies budget
    ensures match ReadProperty(bytes, cursor, depth, done, old(budget.View()))
            case Ok(read) =>
              && r == Ok((NameOf(read.item), if NameOf(read.item) == NAME && read.item.value != [] then Some(read.item.value[..|read.item.value| - 1]) else None))
              && next == read.cursor && budget.View() == read.budget
            case Err(e) => r == Err(e)
  {
    hide PropertyWire, Le, Printable, AllZero, Names;
    next := cursor;
    var wireName :- Take(bytes, cursor, 32);
    var terminator := Terminator(wireName);
    if terminator == 32 || !PropertyNameOk(wireName[..terminator]) || !AllZero(wireName[terminator..]) {
      return Err(InvalidPropertyName), next;
    }
    var name := wireName[..terminator];
    if name in names {
      return Err(DuplicateProperty), next;
    }
    var size :- ReadU32(bytes, cursor + 32);
    var wire :- PropertyWire(size);
    var _ :- budget.Spend(wire);
    var value :- Take(bytes, cursor + 36, size);
    var nodeName := None;
    if name == NAME {
      if value == [] || value[|value| - 1] != 0 {
        return Err(InvalidNameProperty), next;
      }
      if !NodeNameOk(value[..|value| - 1], depth) {
        return Err(InvalidNodeName), next;
      }
      nodeName := Some(value[..|value| - 1]);
    }
    var padding :- Take(bytes, cursor + 36 + size, PaddingSize(size));
    if !AllZero(padding) {
      return Err(InvalidPadding), next;
    }
    next := cursor + 36 + size + PaddingSize(size);
    return Ok((name, nodeName)), next;
  }

  lemma NamesAppend(done: seq<Property>, p: Property)
    ensures Names(done + [p]) == Names(done) + [NameOf(p)]
    ensures NodeName(done + [p]) == if NameOf(p) == NAME && p.value != [] then Some(p.value[..|p.value| - 1]) else NodeName(done)
  {
    hide NameOf;
    assert (done + [p])[..|done|] == done;
  }

  lemma NodeNamesAppend(done: seq<Node>, n: Node)
    ensures NodeNames(done + [n]) == NodeNames(done) + [NodeName(n.properties)]
  {
    hide NodeName;
  }

  /** The property loop. */
  method ReadPropertiesAt(bytes: seq<byte>, cursor: nat, depth: nat, count: nat, budget: Budget, ghost counted: Counts)
      returns (r: Result<seq<byte>, Error>, next: nat)
    requires counted == budget.View()
    modifies budget
    ensures match ReadProperties(bytes, cursor, depth, count, [], counted)
            case Ok(ps) =>
              if NodeName(ps.item).None? then r == Err(InvalidNameProperty)
              else r == Ok(NodeName(ps.item).value) && next == ps.cursor && budget.View() == ps.budget
            case Err(e) => r == Err(e)
  {
    hide ReadProperty, ReadProperties, NameOf, NodeName, Names;
    next := cursor;
    var names: seq<seq<byte>> := [];
    var nodeName: Option<seq<byte>> := None;
    ghost var done: seq<Property> := [];
    NoProperties();
    for index := 0 to count
      invariant names == Names(done) && nodeName == NodeName(done)
      invariant ReadProperties(bytes, cursor, depth, count, [], counted)
             == ReadProperties(bytes, next, depth, count - index, done, budget.View())
    {
      ReadPropertiesStep(bytes, next, depth, count - index, done, budget.View());
      ghost var read := ReadProperty(bytes, next, depth, done, budget.View());
      var found, after := ReadPropertyAt(bytes, next, depth, names, budget, done);
      if found.Err? {
        return Err(found.error), next;
      }
      NamesAppend(done, read.value.item);
      done := done + [read.value.item];
      names := names + [found.value.0];
      nodeName := if found.value.1.Some? then found.value.1 else nodeName;
      next := after;
    }
    PropertiesNil(bytes, next, depth, done, budget.View());
    if nodeName.None? {
      return Err(InvalidNameProperty), next;
    }
    return Ok(nodeName.value), next;
  }

  lemma NoProperties()
    ensures Names([]) == [] && NodeName([]) == None && NodeNames([]) == []
  {
  }

  method ReadNodeAt(bytes: seq<byte>, cursor: nat, depth: nat, budget: Budget) returns (r: Result<seq<byte>, Error>, next: nat)
    modifies budget
    ensures match ReadNode(bytes, cursor, depth, old(budget.View()))
            case Ok(read) => r == Ok(NodeName(read.item.properties).value) && NodeName(read.item.properties).Some?
                             && next == read.cursor && budget.View() == read.budget
            case Err(e) => r == Err(e)
    decreases if depth > MAX_DEPTH then 0 else MAX_DEPTH + 1 - depth, 0
  {
    hide ReadProperties, ReadChildren, NodeName, Le;
    next := cursor;
    var properties :- ReadU32(bytes, cursor);
    var children :- ReadU32(bytes, cursor + 4);
    var _ :- budget.EnterNode(depth, properties, children);
    ghost var counted := budget.View();
    ghost var ps := ReadProperties(bytes, cursor + 8, depth, properties, [], counted);
    var name, at := ReadPropertiesAt(bytes, cursor + 8, depth, properties, budget, counted);
    if name.Err? {
      return Err(name.error), next;
    }
    var rest, end := ReadChildrenAt(bytes, at, depth + 1, children, budget);
    if rest.Err? {
      return Err(rest.error), next;
    }
    return Ok(name.value), end;
  }

  /** The child loop. */
  method ReadChildrenAt(bytes: seq<byte>, cursor: nat, depth: nat, count: nat, budget: Budget) returns (r: Result<(), Error>, next: nat)
    modifies budget
    ensures match ReadChildren(bytes, cursor, depth, count, [], old(budget.View()))
            case Ok(cs) => r == Ok(()) && next == cs.cursor && budget.View() == cs.budget
            case Err(e) => r == Err(e)
    decreases if depth > MAX_DEPTH then 0 else MAX_DEPTH + 1 - depth, 1
  {
    hide ReadNode, ReadChildren, NodeName, NodeNames;
    next := cursor;
    var names: seq<Option<seq<byte>>> := [];
    ghost var done: seq<Node> := [];
    ghost var before := budget.View();
    NoProperties();
    for index := 0 to count
      invariant names == NodeNames(done)
      invariant ReadChildren(bytes, cursor, depth, count, [], before)
             == ReadChildren(bytes, next, depth, count - index, done, budget.View())
    {
      ReadChildrenStep(bytes, next, depth, count - index, done, budget.View());
      ghost var read := ReadNode(bytes, next, depth, budget.View());
      var name, after := ReadNodeAt(bytes, next, depth, budget);
      if name.Err? {
        return Err(name.error), next;
      }
      if Some(name.value) in names {
        return Err(DuplicateChild), next;
      }
      NodeNamesAppend(done, read.value.item);
      done := done + [read.value.item];
      names := names + [Some(name.value)];
      next := after;
    }
    ChildrenNil(bytes, next, depth, done, budget.View());
    return Ok(()), next;
  }

  //////////////////////////////////////////////////////////////////////////////
  // Encoding
  //////////////////////////////////////////////////////////////////////////////

  /** Encodes exactly as Encode says: the whole tree is measured before a byte is written. */
  method EncodeTree(root: FlatNode) returns (r: Result<seq<byte>, Error>)
    ensures r == Encode(root)
    ensures r.Ok? ==> Decode(r.value) == Ok(Lift(root))
  {
    EncodeExact(root);
    hide Measure, NodeBytes, Lift, Decode, StrictNode, Cost, NamesClean;
    var budget := new Budget();
    var measured := MeasureNode(root, 0, budget);
    if measured.Err? {
      return Err(measured.error);
    }
    CostBytes(Lift(root));
    var bytes := WriteNode(root, [], 0);
    assert [] + NodeBytes(Lift(root)) == NodeBytes(Lift(root));
    return Ok(bytes);
  }

  method MeasureNode(node: FlatNode, depth: nat, budget: Budget) returns (r: Result<(), Error>)
    modifies budget
    ensures match Measure(node, depth, old(budget.View()))
            case Ok(c) => r == Ok(()) && budget.View() == c
            case Err(e) => r == Err(e)
    decreases node, 1
  {
    hide MeasureProperties, MeasureChildren, PropertyWire, NodeNameOk;
    var _ :- budget.EnterNode(depth, |node.properties| + 1, |node.children|);
    if !NodeNameOk(node.name, depth) {
      return Err(InvalidNodeName);
    }
    var wire :- PropertyWire(|node.name| + 1);
    var _ :- budget.Spend(wire);
    var _ :- MeasurePropertyList(node.properties, budget);
    r := MeasureChildList(node.children, depth + 1, budget);
  }

  method MeasurePropertyList(ps: seq<FlatProperty>, budget: Budget) returns (r: Result<(), Error>)
    modifies budget
    ensures match MeasureProperties(ps, 0, old(budget.View()))
            case Ok(c) => r == Ok(()) && budget.View() == c
            case Err(e) => r == Err(e)
  {
    hide PropertyWire, PropertyNameOk;
    ghost var before := budget.View();
    for index := 0 to |ps|
      invariant MeasureProperties(ps, 0, before) == MeasureProperties(ps, index, budget.View())
    {
      var property := ps[index];
      if !PropertyNameOk(property.name) {
        return Err(InvalidPropertyName);
      }
      if property.name == NAME || exists j :: 0 <= j < index && ps[j].name == property.name {
        return Err(DuplicateProperty);
      }
      var wire :- PropertyWire(|property.value|);
      var _ :- budget.Spend(wire);
    }
    return Ok(());
  }

  method MeasureChildList(ns: seq<FlatNode>, depth: nat, budget: Budget) returns (r: Result<(), Error>)
    modifies budget
    ensures match MeasureChildren(ns, 0, depth, old(budget.View()))
            case Ok(c) => r == Ok(()) && budget.View() == c
            case Err(e) => r == Err(e)
    decreases ns, 0
  {
    hide Measure;
    ghost var before := budget.View();
    for index := 0 to |ns|
      invariant MeasureChildren(ns, 0, depth, before) == MeasureChildren(ns, index, depth, budget.View())
    {
      if exists j :: 0 <= j < index && ns[j].name == ns[index].name {
        return Err(DuplicateChild);
      }
      var _ :- MeasureNode(ns[index], depth, budget);
    }
    return Ok(());
  }

  /** Appends one property: name field, length, value, and zeros up to a multiple of four bytes. */
  method WriteProperty(name: seq<byte>, value: seq<byte>, out: seq<byte>) returns (bytes: seq<byte>)
    requires |name| <= 32 && |value| <= MAX_SERIALIZED_SIZE && |out| % 4 == 0 && |out| <= MAX_SERIALIZED_SIZE
    ensures bytes == out + PropertyBytes(LiftProperty(name, value)) && |bytes| % 4 == 0
  {
    hide ToLe, Field, BitAnd, Not64, PropertyBytes, LiftProperty, PaddingSize, Store, Pow2, Le;
    FieldSize(name);
    var wireName := Store(Zeros(32), 0, name);
    FieldStored(name);
    bytes := out + wireName;
    bytes := bytes + ToLe(|value|, 4);
    bytes := bytes + value;
    RoundUp(|bytes|);
    PaddingMoved(|out|, |value|);
    var size := BitAnd(|bytes| + 3, Not64(3));
    bytes := bytes + Zeros(size - |bytes|);
    PropertyAppended(name, value, out);
  }

  lemma FieldSize(name: seq<byte>)
    requires |name| <= 32
    ensures |Store(Zeros(32), 0, name)| == 32 && |Field(name)| == 32
  {
  }

  /** Aligned output does not change how much padding a value needs. */
  lemma PaddingMoved(before: nat, length: nat)
    requires before % 4 == 0
    ensures PaddingSize(before + 32 + 4 + length) == PaddingSize(length)
  {
    assert (before + 32 + 4 + length) % 4 == length % 4 by {
      hide PaddingSize;
      assert before == 4 * (before / 4) && length == 4 * (length / 4) + length % 4;
      assert before + 32 + 4 + length == 4 * (before / 4 + 9 + length / 4) + length % 4;
    }
  }

  lemma PropertyAppended(name: seq<byte>, value: seq<byte>, out: seq<byte>)
    requires |value| < U32_LIMIT
    ensures out + Field(name) + ToLe(|value|, 4) + value + Zeros(PaddingSize(|value|)) == out + PropertyBytes(LiftProperty(name, value))
  {
    var p := LiftProperty(name, value);
    hide ToLe, Field, PaddingSize, Zeros;
    FiveParts(out, p.rawName, ToLe(p.rawLength, 4), p.value, p.padding);
  }

  lemma FiveParts(a: seq<byte>, b: seq<byte>, c: seq<byte>, d: seq<byte>, e: seq<byte>)
    ensures a + b + c + d + e == a + (b + (c + (d + e)))
  {
    ThreeParts(a + b + c, d, e);
    ThreeParts(a + b, c, d + e);
    ThreeParts(a, b, c + (d + e));
  }

  lemma ThreeParts(a: seq<byte>, b: seq<byte>, c: seq<byte>)
    ensures a + b + c == a + (b + c)
  {
  }

  lemma FieldStored(name: seq<byte>)
    requires |name| <= 32
    ensures Store(Zeros(32), 0, name) == Field(name)
  {
  }

  lemma RoundUp(n: nat)
    requires n <= 4 * MAX_SERIALIZED_SIZE
    ensures BitAnd(n + 3, Not64(3)) == n + PaddingSize(n)
  {
    hide BitAnd, Pow2;
    Pow2Four();
    AndNotLow(n + 3, 2);
  }

  lemma StrictBounds(node: FlatNode, depth: nat)
    requires NamesClean(node) && StrictNode(Lift(node), depth)
    ensures |node.properties| < MAX_PROPERTIES_PER_NODE && |node.children| <= MAX_CHILDREN_PER_NODE
    ensures |node.name| <= MAX_NODE_NAME
    ensures forall i :: 0 <= i < |node.properties| ==>
              |node.properties[i].name| <= 32 && |node.properties[i].value| <= MAX_SERIALIZED_SIZE
  {
    StrictNodeParts(Lift(node), depth);
    LiftHead(node, depth);
    hide StrictNode, StrictNodes, LiftAll, Names, NodeNames, Distinct, NodeName, Fresh, NulFree, LiftProperty;
    assert NodeNameOk(node.name, depth);
    forall i | 0 <= i < |node.properties|
      ensures |node.properties[i].name| <= 32 && |node.properties[i].value| <= MAX_SERIALIZED_SIZE
    {
      LiftShape(node.properties[i].name, node.properties[i].value);
      assert StrictProperty(LiftProperties(node.properties)[i], depth);
    }
  }

  /** Appends the layout of a measured tree. */
  method WriteNode(node: FlatNode, out: seq<byte>, ghost depth: nat) returns (bytes: seq<byte>)
    requires NamesClean(node) && StrictNode(Lift(node), depth)
    requires |out| % 4 == 0 && |out| + |NodeBytes(Lift(node))| <= MAX_SERIALIZED_SIZE
    ensures bytes == out + NodeBytes(Lift(node)) && |bytes| % 4 == 0
    decreases node, 1
  {
    StrictBounds(node, depth);
    LiftLayout(node, depth);
    hide StrictNode, StrictNodes, Lift, LiftAll, LiftProperties, NodeBytes, PropertiesBytes, NodesBytes, PropertyBytes, LiftProperty, ToLe, NamesClean, NamesCleanAll;
    ghost var head := Head(node);
    ghost var q, c := PropertiesBytes(LiftProperties(node.properties)), NodesBytes(LiftAll(node.children));
    hide Head;
    Joined(out, head, q, c);
    bytes := WriteHead(node, out);
    bytes := WriteProperties(node.properties, bytes);
    bytes := WriteChildren(node.children, bytes, depth + 1);
  }

  /** The counts and the name property of a node. */
  ghost function Head(node: FlatNode): seq<byte> {
    ToLe(|node.properties| + 1, 4) + ToLe(|node.children|, 4) + PropertyBytes(LiftProperty(NAME, node.name + [0]))
  }

  method WriteHead(node: FlatNode, out: seq<byte>) returns (bytes: seq<byte>)
    requires |node.name| <= MAX_NODE_NAME && |out| % 4 == 0 && |out| + |Head(node)| <= MAX_SERIALIZED_SIZE
    ensures bytes == out + Head(node) && |bytes| % 4 == 0
  {
    hide PropertyBytes, LiftProperty, ToLe;
    bytes := out + ToLe(|node.properties| + 1, 4);
    bytes := bytes + ToLe(|node.children|, 4);
    var nameValue := Store(Zeros(MAX_NODE_NAME + 1), 0, node.name);
    NameValue(node.name);
    bytes := WriteProperty(NAME, nameValue[..|node.name| + 1], bytes);
  }

  lemma Joined(out: seq<byte>, a: seq<byte>, b: seq<byte>, c: seq<byte>)
    ensures out + a + b + c == out + (a + b + c)
    ensures |out + (a + b + c)| == |out| + |a| + |b| + |c|
  {
  }

  lemma NameValue(name: seq<byte>)
    requires |name| <= MAX_NODE_NAME
    ensures Store(Zeros(MAX_NODE_NAME + 1), 0, name)[..|name| + 1] == name + [0]
  {
  }

  lemma LiftLayout(node: FlatNode, depth: nat)
    requires NamesClean(node) && StrictNode(Lift(node), depth)
    ensures NodeBytes(Lift(node)) ==
            Head(node) + PropertiesBytes(LiftProperties(node.properties)) + NodesBytes(LiftAll(node.children))
    ensures NamesCleanAll(node.children) && StrictNodes(LiftAll(node.children), depth + 1)
  {
    StrictNodeParts(Lift(node), depth);
    hide StrictNode, StrictNodes, LiftAll, PropertiesBytes, NodesBytes, PropertyBytes, StrictProperties, LiftProperty, LiftProperties, ToLe;
    PropertiesCons(LiftProperty(NAME, node.name + [0]), LiftProperties(node.properties), depth);
  }

  method WriteProperties(ps: seq<FlatProperty>, out: seq<byte>) returns (bytes: seq<byte>)
    requires forall i :: 0 <= i < |ps| ==> |ps[i].name| <= 32 && |ps[i].value| <= MAX_SERIALIZED_SIZE
    requires |out| % 4 == 0 && |out| + |PropertiesBytes(LiftProperties(ps))| <= MAX_SERIALIZED_SIZE
    ensures bytes == out + PropertiesBytes(LiftProperties(ps)) && |bytes| % 4 == 0
  {
    hide PropertiesBytes, PropertyBytes, LiftProperty;
    ghost var all := LiftProperties(ps);
    bytes := out;
    SomeProperties(all, 0);
    for index := 0 to |ps|
      invariant bytes == out + PropertiesBytes(all[..index]) && |bytes| % 4 == 0
    {
      SomeProperties(all, index);
      bytes := WriteProperty(ps[index].name, ps[index].value, bytes);
    }
    assert all[..|ps|] == all;
  }

  lemma SomeNodes(ns: seq<FlatNode>, i: nat, depth: nat)
    requires i <= |ns| && NamesCleanAll(ns) && StrictNodes(LiftAll(ns), depth)
    ensures NodesBytes(LiftAll(ns)[..0]) == [] && |NodesBytes(LiftAll(ns)[..i])| <= |NodesBytes(LiftAll(ns))|
    ensures i < |ns| ==>
              && NodesBytes(LiftAll(ns)[..i + 1]) == NodesBytes(LiftAll(ns)[..i]) + NodeBytes(Lift(ns[i]))
              && |NodesBytes(LiftAll(ns)[..i + 1])| <= |NodesBytes(LiftAll(ns))|
              && NamesClean(ns[i]) && StrictNode(Lift(ns[i]), depth)
  {
    hide NodeBytes, Lift, LiftAll, NamesClean, StrictNode, StrictNodes;
    var ms := LiftAll(ns);
    assert ms == ms[..i] + ms[i..];
    NodesConcat(ms[..i], ms[i..]);
    if i < |ns| {
      LiftAllAt(ns, i);
      CleanAt(ns, i);
      StrictNodesAt(ms, depth, i);
      assert ms[..i + 1] == ms[..i] + [ms[i]];
      NodesConcat(ms[..i], [ms[i]]);
      NodesCons(ms[i], [], depth);
      assert [ms[i]] + [] == [ms[i]];
      assert ms == ms[..i + 1] + ms[i + 1..];
      NodesConcat(ms[..i + 1], ms[i + 1..]);
    }
  }

  lemma {:induction false} CleanAt(ns: seq<FlatNode>, k: nat)
    requires NamesCleanAll(ns) && k < |ns|
    ensures NamesClean(ns[k])
  {
    hide NamesClean;
    if k > 0 {
      CleanAt(ns[1..], k - 1);
    }
  }

  method WriteChildren(ns: seq<FlatNode>, out: seq<byte>, ghost depth: nat) returns (bytes: seq<byte>)
    requires NamesCleanAll(ns) && StrictNodes(LiftAll(ns), depth)
    requires |out| % 4 == 0 && |out| + |NodesBytes(LiftAll(ns))| <= MAX_SERIALIZED_SIZE
    ensures bytes == out + NodesBytes(LiftAll(ns)) && |bytes| % 4 == 0
    decreases ns, 0
  {
    hide NodeBytes, NodesBytes, Lift, LiftAll, NamesClean, NamesCleanAll, StrictNode, StrictNodes;
    bytes := out;
    SomeNodes(ns, 0, depth);
    for index := 0 to |ns|
      invariant bytes == out + NodesBytes(LiftAll(ns)[..index]) && |bytes| % 4 == 0
    {
      SomeNodes(ns, index, depth);
      bytes := WriteNode(ns[index], bytes, depth);
    }
    assert LiftAll(ns)[..|ns|] == LiftAll(ns);
  }
}
