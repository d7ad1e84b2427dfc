/**
 The encoder of runtime device trees. It succeeds exactly on trees whose layout is canonical, and
 it is a bijection from those onto the accepted byte strings that put every name property first.
 */
module FlatEncode {
  import opened Wrappers
  import opened Words
  import opened DeviceTree
  import opened FlatDt

  datatype FlatProperty = FlatProperty(name: seq<byte>, value: seq<byte>)

  datatype FlatNode = FlatNode(name: seq<byte>, properties: seq<FlatProperty>, children: seq<FlatNode>)

  //////////////////////////////////////////////////////////////////////////////
  // The layout of a tree
  //////////////////////////////////////////////////////////////////////////////

  function Field(name: seq<byte>): seq<byte> {
    if |name| <= 32 then name + Zeros(32 - |name|) else name
  }

  function Length(n: nat): u32 {
    if n < U32_LIMIT then n else 0
  }

  function LiftProperty(name: seq<byte>, value: seq<byte>): Property {
    Property(Field(name), Length(|value|), value, Zeros(PaddingSize(|value|)))
  }

  function LiftProperties(ps: seq<FlatProperty>): (r: seq<Property>)
    ensures |r| == |ps| && forall i :: 0 <= i < |ps| ==> r[i] == LiftProperty(ps[i].name, ps[i].value)
  {
    seq(|ps|, i requires 0 <= i < |ps| => LiftProperty(ps[i].name, ps[i].value))
  }

  /** The tree a node is laid out as: its name becomes its first property. */
  function Lift(n: FlatNode): Node
    decreases n, 1
  {
    Node([LiftProperty(NAME, n.name + [0])] + LiftProperties(n.properties), LiftAll(n.children))
  }

  function LiftAll(ns: seq<FlatNode>): (r: seq<Node>)
    ensures |r| == |ns|
    decreases ns, 0
  {
    if ns == [] then [] else [Lift(ns[0])] + LiftAll(ns[1..])
  }

  predicate NulFree(name: seq<byte>) {
    forall i :: 0 <= i < |name| ==> name[i] != 0
  }

  /** Property names without zero bytes, as the name field needs. */
  predicate NamesClean(n: FlatNode)
    decreases n, 1
  {
    (forall i :: 0 <= i < |n.properties| ==> NulFree(n.properties[i].name)) && NamesCleanAll(n.children)
  }

  predicate NamesCleanAll(ns: seq<FlatNode>)
    decreases ns, 0
  {
    ns == [] || (NamesClean(ns[0]) && NamesCleanAll(ns[1..]))
  }

  //////////////////////////////////////////////////////////////////////////////
  // The preflight as a function
  //////////////////////////////////////////////////////////////////////////////

  function MeasureProperties(ps: seq<FlatProperty>, i: nat, b: Counts): Result<Counts, Error>
    requires i <= |ps|
    decreases |ps| - i
  {
    if i == |ps| then Ok(b) else
    if !PropertyNameOk(ps[i].name) then Err(InvalidPropertyName) else
    if ps[i].name == NAME || exists j :: 0 <= j < i && ps[j].name == ps[i].name then Err(DuplicateProperty) else
    var wire :- PropertyWire(|ps[i].value|);
    var spent :- AddBytes(b, wire);
    MeasureProperties(ps, i + 1, spent)
  }

  function Measure(n: FlatNode, depth: nat, b: Counts): Result<Counts, Error>
    decreases n, 1, 0
  {
    var counted :- AddNode(b, depth, |n.properties| + 1, |n.children|);
    if !NodeNameOk(n.name, depth) then Err(InvalidNodeName) else
    var wire :- PropertyWire(|n.name| + 1);
    var named :- AddBytes(counted, wire);
    var spent :- MeasureProperties(n.properties, 0, named);
    MeasureChildren(n.children, 0, depth + 1, spent)
  }

  function MeasureChildren(ns: seq<FlatNode>, i: nat, depth: nat, b: Counts): Result<Counts, Error>
    requires i <= |ns|
    decreases ns, 0, |ns| - i
  {
    if i == |ns| then Ok(b) else
    if exists j :: 0 <= j < i && ns[j].name == ns[i].name then Err(DuplicateChild) else
    var spent :- Measure(ns[i], depth, b);
    MeasureChildren(ns, i + 1, depth, spent)
  }

  /** The bytes of a tree, or why it cannot be encoded. */
  function Encode(root: FlatNode): Result<seq<byte>, Error> {
    var budget :- Measure(root, 0, Counts(0, 0, 0));
    Ok(NodeBytes(Lift(root)))
  }

  //////////////////////////////////////////////////////////////////////////////
  // Properties
  //////////////////////////////////////////////////////////////////////////////

  lemma FieldName(name: seq<byte>, value: seq<byte>)
    requires NulFree(name) && |name| <= 32
    ensures Terminator(Field(name)) == |name| && NameOf(LiftProperty(name, value)) == name
    ensures AllZero(Field(name)[|name|..])
  {
    var t := Terminator(Field(name));
    assert forall k :: 0 <= k < |name| ==> Field(name)[k] == name[k] && name[k] != 0;
    assert |name| < 32 ==> Field(name)[|name|] == 0;
  }

  lemma LiftShape(name: seq<byte>, value: seq<byte>)
    ensures PropertyShape(LiftProperty(name, value)) && LiftProperty(name, value).rawLength <= MAX_SERIALIZED_SIZE
            <==> |name| <= 32 && |value| <= MAX_SERIALIZED_SIZE
    ensures AllZero(LiftProperty(name, value).padding)
  {
  }

  lemma LongName(name: seq<byte>)
    ensures PropertyNameOk(name) ==> NulFree(name) && |name| < 32
    ensures NAME != [] && NulFree(NAME) && PropertyNameOk(NAME) && |NAME| == 4
  {
  }

  /** A property with a clean name is accepted exactly when its layout is. */
  lemma LiftStrict(name: seq<byte>, value: seq<byte>, depth: nat)
    requires NulFree(name) && name != NAME
    ensures PropertyNameOk(name) && |value| <= MAX_SERIALIZED_SIZE <==> StrictProperty(LiftProperty(name, value), depth)
    ensures PropertyNameOk(name) ==> NameOf(LiftProperty(name, value)) == name
  {
    LiftShape(name, value);
    LongName(name);
    if |name| <= 32 {
      FieldName(name, value);
      assert Field(name)[..|name|] == name;
    }
    hide NodeNameOk, Printable, AllZero, Terminator, NulFree;
  }

  lemma LiftNameStrict(name: seq<byte>, depth: nat)
    ensures NodeNameOk(name, depth) && |name| + 1 <= MAX_SERIALIZED_SIZE <==> StrictProperty(LiftProperty(NAME, name + [0]), depth)
    ensures NameOf(LiftProperty(NAME, name + [0])) == NAME
    ensures (name + [0])[..|name|] == name
  {
    LiftShape(NAME, name + [0]);
    LongName(NAME);
    FieldName(NAME, name + [0]);
    assert Field(NAME)[..4] == NAME;
    assert (name + [0])[..|name|] == name;
    hide NodeNameOk, Printable, AllZero, Terminator, NulFree, Field;
  }

  /** From position i on, no name is `name` or repeats an earlier one. */
  predicate Fresh(ps: seq<FlatProperty>, i: nat) {
    forall k :: i <= k < |ps| ==> FreshAt(ps, k)
  }

  predicate FreshAt(ps: seq<FlatProperty>, k: nat)
    requires k < |ps|
  {
    ps[k].name != NAME && forall j :: 0 <= j < k ==> ps[j].name != ps[k].name
  }

  predicate Clean(ps: seq<FlatProperty>) {
    forall i :: 0 <= i < |ps| ==> NulFree(ps[i].name)
  }

  lemma LiftTail(ps: seq<FlatProperty>, i: nat)
    requires i < |ps|
    ensures LiftProperties(ps[i..]) == [LiftProperty(ps[i].name, ps[i].value)] + LiftProperties(ps[i + 1..])
  {
    hide LiftProperty;
  }

  lemma LiftSize(name: seq<byte>, value: seq<byte>)
    requires |name| <= 32 && |value| <= MAX_SERIALIZED_SIZE
    ensures PropertyWire(|value|) == Ok(|PropertyBytes(LiftProperty(name, value))|)
  {
    PropertyWireSize(|value|);
    LiftShape(name, value);
    PropertySize(LiftProperty(name, value));
    hide PropertyWire, PropertyBytes;
  }

  lemma MeasurePropertiesStep(ps: seq<FlatProperty>, i: nat, b: Counts)
    requires i < |ps| && b.bytes <= MAX_SERIALIZED_SIZE
    ensures var size := |PropertyBytes(LiftProperty(ps[i].name, ps[i].value))|;
            if PropertyNameOk(ps[i].name) && FreshAt(ps, i) && |ps[i].value| <= MAX_SERIALIZED_SIZE && b.bytes + size <= MAX_SERIALIZED_SIZE
            then MeasureProperties(ps, i, b) == MeasureProperties(ps, i + 1, Spend(b, size))
            else MeasureProperties(ps, i, b).Err?
  {
    PropertyWireSize(|ps[i].value|);
    LongName(ps[i].name);
    if PropertyNameOk(ps[i].name) && |ps[i].value| <= MAX_SERIALIZED_SIZE {
      LiftSize(ps[i].name, ps[i].value);
    }
    hide PropertyWire, PropertyBytes, LiftProperty, PropertyNameOk;
  }

  lemma {:induction false} MeasurePropertiesExact(ps: seq<FlatProperty>, i: nat, depth: nat, b: Counts)
    requires i <= |ps| && Clean(ps) && b.bytes <= MAX_SERIALIZED_SIZE
    ensures var qs := LiftProperties(ps[i..]);
            && (MeasureProperties(ps, i, b).Ok? <==>
                  StrictProperties(qs, depth) && Fresh(ps, i) && b.bytes + |PropertiesBytes(qs)| <= MAX_SERIALIZED_SIZE)
            && (MeasureProperties(ps, i, b).Ok? ==> MeasureProperties(ps, i, b).value == Spend(b, |PropertiesBytes(qs)|))
    decreases |ps| - i
  {
    hide MeasureProperties, PropertyBytes, PropertiesBytes, StrictProperty, StrictProperties, LiftProperty, LiftProperties, FreshAt, NulFree, PropertyNameOk;
    if i == |ps| {
      MeasureNothing(ps, b, depth);
    } else {
      var p := LiftProperty(ps[i].name, ps[i].value);
      MeasurePropertiesStep(ps, i, b);
      FreshStep(ps, i);
      LiftTail(ps, i);
      PropertiesCons(p, LiftProperties(ps[i + 1..]), depth);
      if ps[i].name != NAME {
        LiftStrict(ps[i].name, ps[i].value, depth);
      }
      NotName(ps, i);
      if b.bytes + |PropertyBytes(p)| <= MAX_SERIALIZED_SIZE {
        MeasurePropertiesExact(ps, i + 1, depth, Spend(b, |PropertyBytes(p)|));
      }
    }
  }

  lemma MeasureNothing(ps: seq<FlatProperty>, b: Counts, depth: nat)
    ensures MeasureProperties(ps, |ps|, b) == Ok(b) && LiftProperties(ps[|ps|..]) == []
    ensures PropertiesBytes([]) == [] && StrictProperties([], depth)
  {
  }

  lemma FreshStep(ps: seq<FlatProperty>, i: nat)
    requires i < |ps|
    ensures Fresh(ps, i) <==> FreshAt(ps, i) && Fresh(ps, i + 1)
  {
    hide FreshAt;
  }

  lemma NotName(ps: seq<FlatProperty>, i: nat)
    requires i < |ps|
    ensures FreshAt(ps, i) ==> ps[i].name != NAME
  {
  }

  //////////////////////////////////////////////////////////////////////////////
  // Names after lifting
  //////////////////////////////////////////////////////////////////////////////

  /** All lifted properties of a strict list carry their own names. */
  lemma LiftedNames(ps: seq<FlatProperty>, depth: nat, i: nat)
    requires Clean(ps) && StrictProperties(LiftProperties(ps), depth) && i < |ps|
    ensures Names(LiftProperties(ps))[i] == ps[i].name
  {
    hide StrictProperty, PropertyNameOk, LiftProperty, NameOf;
    assert StrictProperty(LiftProperties(ps)[i], depth);
    if ps[i].name == NAME {
      FieldIsName(ps[i].value);
    } else {
      LiftStrict(ps[i].name, ps[i].value, depth);
    }
  }

  lemma FieldIsName(value: seq<byte>)
    ensures NameOf(LiftProperty(NAME, value)) == NAME
  {
    LongName(NAME);
    FieldName(NAME, value);
  }

  lemma FreshIsDistinct(ps: seq<FlatProperty>, name: seq<byte>, depth: nat)
    requires Clean(ps) && StrictProperties(LiftProperties(ps), depth)
    ensures Fresh(ps, 0) <==> Distinct(Names([LiftProperty(NAME, name)] + LiftProperties(ps)))
  {
    hide StrictProperty, LiftProperty, NameOf, StrictProperties, NulFree;
    var all := [LiftProperty(NAME, name)] + LiftProperties(ps);
    var names := Names(all);
    FieldIsName(name);
    forall k | 1 <= k < |names| ensures names[k] == ps[k - 1].name {
      LiftedNames(ps, depth, k - 1);
      assert all[k] == LiftProperties(ps)[k - 1];
    }
    hide Names, LiftProperties;
    FreshNames(ps, names);
  }

  lemma FreshNames(ps: seq<FlatProperty>, names: seq<seq<byte>>)
    requires |names| == |ps| + 1 && names[0] == NAME && forall k :: 1 <= k < |names| ==> names[k] == ps[k - 1].name
    ensures Fresh(ps, 0) <==> Distinct(names)
  {
    if Fresh(ps, 0) {
      forall i, j | 0 <= i < j < |names| ensures names[i] != names[j] {
        assert FreshAt(ps, j - 1);
      }
    }
    if Distinct(names) {
      forall k | 0 <= k < |ps| ensures FreshAt(ps, k) {
        assert names[0] != names[k + 1];
        forall j | 0 <= j < k ensures ps[j].name != ps[k].name {
          assert names[j + 1] != names[k + 1];
        }
      }
    }
  }

  lemma {:induction false} NodeNameFirst(p: Property, qs: seq<Property>)
    requires NAME !in Names(qs)
    ensures NodeName([p] + qs) == NodeName([p])
  {
    hide NameOf;
    if qs == [] {
      assert [p] + qs == [p];
    } else {
      var rest := qs[..|qs| - 1];
      var all := [p] + qs;
      assert all[..|all| - 1] == [p] + rest;
      assert Names(rest) == Names(qs)[..|rest|];
      assert Names(qs)[|qs| - 1] == NameOf(all[|all| - 1]);
      NodeNameFirst(p, rest);
    }
  }

  /** A strict lifted node is named as its source. */
  lemma LiftedNodeName(n: FlatNode)
    requires Distinct(Names(Lift(n).properties))
    ensures NodeName(Lift(n).properties) == Some(n.name)
  {
    var p, qs := LiftProperty(NAME, n.name + [0]), LiftProperties(n.properties);
    assert Lift(n).properties == [p] + qs;
    FieldIsName(n.name + [0]);
    var names := Names([p] + qs);
    assert names[0] == NAME;
    forall i | 0 <= i < |qs| ensures Names(qs)[i] != NAME {
      assert names[i + 1] == NameOf(([p] + qs)[i + 1]);
      assert names[0] != names[i + 1];
    }
    NodeNameFirst(p, qs);
    assert (n.name + [0])[..|n.name|] == n.name;
    OneName(p, n.name + [0]);
  }

  lemma OneName(p: Property, value: seq<byte>)
    requires NameOf(p) == NAME && p.value == value && value != []
    ensures NodeName([p]) == Some(value[..|value| - 1])
  {
    assert [p][..0] == [];
  }

  //////////////////////////////////////////////////////////////////////////////
  // Nodes
  //////////////////////////////////////////////////////////////////////////////

  predicate FreshChild(ns: seq<FlatNode>, k: nat)
    requires k < |ns|
  {
    forall j :: 0 <= j < k ==> ns[j].name != ns[k].name
  }

  predicate FreshChildren(ns: seq<FlatNode>, i: nat) {
    forall k :: i <= k < |ns| ==> FreshChild(ns, k)
  }

  /** What lifting adds to a node beside its children. */
  lemma LiftHead(n: FlatNode, depth: nat)
    requires Clean(n.properties)
    ensures var p, qs := LiftProperty(NAME, n.name + [0]), LiftProperties(n.properties);
            && Lift(n).properties == [p] + qs && Lift(n).children == LiftAll(n.children)
            && PropertiesBytes(Lift(n).properties) == PropertyBytes(p) + PropertiesBytes(qs)
            && (StrictProperties(Lift(n).properties, depth) && Distinct(Names(Lift(n).properties)) <==>
                  NodeNameOk(n.name, depth) && |n.name| + 1 <= MAX_SERIALIZED_SIZE
                  && StrictProperties(qs, depth) && Fresh(n.properties, 0))
            && (Distinct(Names(Lift(n).properties)) ==> NodeName(Lift(n).properties) == Some(n.name))
  {
    hide StrictProperty, StrictProperties, Distinct, Names, Fresh, NodeName, PropertyBytes, PropertiesBytes, LiftProperty, LiftProperties, LiftAll, NulFree, NodeNameOk;
    var p, qs := LiftProperty(NAME, n.name + [0]), LiftProperties(n.properties);
    PropertiesCons(p, qs, depth);
    LiftNameStrict(n.name, depth);
    if StrictProperties(qs, depth) {
      FreshIsDistinct(n.properties, n.name + [0], depth);
    }
    if Distinct(Names(Lift(n).properties)) {
      LiftedNodeName(n);
    }
  }

  /** The preflight of a node, with its name and properties taken together. */
  lemma MeasureHead(n: FlatNode, depth: nat, b: Counts)
    requires Clean(n.properties) && Within(b)
    ensures var ps := Lift(n).properties;
            var spent := Plus(b, Counts(1, |ps|, 8 + |PropertiesBytes(ps)|));
            if depth <= MAX_DEPTH && |ps| <= MAX_PROPERTIES_PER_NODE && |n.children| <= MAX_CHILDREN_PER_NODE
               && Within(spent) && StrictProperties(ps, depth) && Distinct(Names(ps))
            then Measure(n, depth, b) == MeasureChildren(n.children, 0, depth + 1, spent)
            else Measure(n, depth, b).Err?
  {
    hide StrictProperty, StrictProperties, Distinct, Names, Fresh, NodeName, PropertyBytes, PropertiesBytes, LiftProperty, LiftProperties,
      LiftAll, NulFree, NodeNameOk, Lift, MeasureProperties, MeasureChildren, PropertyWire;
    var p, qs := LiftProperty(NAME, n.name + [0]), LiftProperties(n.properties);
    LiftHead(n, depth);
    LongName(NAME);
    PropertyWireSize(|n.name| + 1);
    if |n.name| + 1 <= MAX_SERIALIZED_SIZE {
      LiftSize(NAME, n.name + [0]);
    }
    var named := Counts(b.nodes + 1, b.properties + |n.properties| + 1, b.bytes + 8 + |PropertyBytes(p)|);
    assert n.properties[0..] == n.properties;
    if named.bytes <= MAX_SERIALIZED_SIZE {
      MeasurePropertiesExact(n.properties, 0, depth, named);
    }
  }

  lemma {:induction false} LiftAllAt(ns: seq<FlatNode>, k: nat)
    requires k < |ns|
    ensures LiftAll(ns)[k] == Lift(ns[k])
  {
    hide Lift;
    if k > 0 {
      LiftAllAt(ns[1..], k - 1);
    }
  }

  lemma {:induction false} StrictNodesAt(ns: seq<Node>, depth: nat, k: nat)
    requires StrictNodes(ns, depth) && k < |ns|
    ensures StrictNode(ns[k], depth)
  {
    hide StrictNode;
    if k > 0 {
      StrictNodesAt(ns[1..], depth, k - 1);
    }
  }

  lemma LiftAllTail(ns: seq<FlatNode>, i: nat)
    requires i < |ns|
    ensures LiftAll(ns[i..]) == [Lift(ns[i])] + LiftAll(ns[i + 1..])
    ensures NamesCleanAll(ns[i..]) <==> NamesClean(ns[i]) && NamesCleanAll(ns[i + 1..])
  {
    hide Lift, NamesClean;
    assert ns[i..][1..] == ns[i + 1..];
  }

  lemma FreshChildrenStep(ns: seq<FlatNode>, i: nat)
    requires i < |ns|
    ensures FreshChildren(ns, i) <==> FreshChild(ns, i) && FreshChildren(ns, i + 1)
  {
    hide FreshChild;
  }

  lemma MeasureChildrenStep(ns: seq<FlatNode>, i: nat, depth: nat, b: Counts)
    requires i < |ns|
    ensures MeasureChildren(ns, i, depth, b) ==
            if !FreshChild(ns, i) then Err(DuplicateChild)
            else if Measure(ns[i], depth, b).Err? then Err(Measure(ns[i], depth, b).error)
            else MeasureChildren(ns, i + 1, depth, Measure(ns[i], depth, b).value)
  {
    hide Measure;
  }

  lemma MeasureNoChildren(ns: seq<FlatNode>, depth: nat, b: Counts)
    ensures MeasureChildren(ns, |ns|, depth, b) == Ok(b) && LiftAll(ns[|ns|..]) == [] && FreshChildren(ns, |ns|)
    ensures StrictNodes([], depth) && Costs([]) == Counts(0, 0, 0)
  {
  }

  lemma FreshChildrenDistinct(ns: seq<FlatNode>, depth: nat)
    requires StrictNodes(LiftAll(ns), depth)
    ensures FreshChildren(ns, 0) <==> Distinct(NodeNames(LiftAll(ns)))
  {
    hide StrictNodes, LiftAll, Lift, NodeName, Names;
    var names := NodeNames(LiftAll(ns));
    forall k | 0 <= k < |ns| ensures names[k] == Some(ns[k].name) {
      LiftAllAt(ns, k);
      StrictNodesAt(LiftAll(ns), depth, k);
      StrictNodeParts(Lift(ns[k]), depth);
      LiftedNodeName(ns[k]);
    }
    hide NodeNames;
    if FreshChildren(ns, 0) {
      forall i, j | 0 <= i < j < |names| ensures names[i] != names[j] {
        assert FreshChild(ns, j);
      }
    }
    if Distinct(names) {
      forall k | 0 <= k < |ns| ensures FreshChild(ns, k) {
        forall j | 0 <= j < k ensures ns[j].name != ns[k].name {
          assert names[j] != names[k];
        }
      }
    }
  }

  /** The preflight of a tree with clean names succeeds exactly when its layout is canonical, and counts it. */
  lemma {:induction false} MeasureExact(n: FlatNode, depth: nat, b: Counts)
    requires NamesClean(n) && Within(b)
    ensures Measure(n, depth, b).Ok? <==> StrictNode(Lift(n), depth) && Within(Plus(b, Cost(Lift(n))))
    ensures Measure(n, depth, b).Ok? ==> Measure(n, depth, b).value == Plus(b, Cost(Lift(n)))
    decreases n, 1, 0
  {
    hide Measure, MeasureChildren, StrictNode, StrictNodes, StrictProperties, StrictProperty, Cost, Costs, Lift, LiftAll, Distinct, Names, NodeNames,
      NodeName, PropertiesBytes, NamesCleanAll;
    MeasureHead(n, depth, b);
    LiftHead(n, depth);
    StrictNodeParts(Lift(n), depth);
    var ps := Lift(n).properties;
    var spent := Plus(b, Counts(1, |ps|, 8 + |PropertiesBytes(ps)|));
    assert n.children[0..] == n.children;
    if Within(spent) {
      MeasureChildrenExact(n.children, 0, depth + 1, spent);
    }
    if StrictNodes(LiftAll(n.children), depth + 1) {
      FreshChildrenDistinct(n.children, depth + 1);
    }
    hide LiftProperty, LiftProperties, NodeNameOk, Fresh;
  }

  lemma {:induction false} MeasureChildrenExact(ns: seq<FlatNode>, i: nat, depth: nat, b: Counts)
    requires i <= |ns| && NamesCleanAll(ns[i..]) && Within(b)
    ensures var ms := LiftAll(ns[i..]);
            && (MeasureChildren(ns, i, depth, b).Ok? <==>
                  StrictNodes(ms, depth) && FreshChildren(ns, i) && Within(Plus(b, Costs(ms))))
            && (MeasureChildren(ns, i, depth, b).Ok? ==> MeasureChildren(ns, i, depth, b).value == Plus(b, Costs(ms)))
    decreases ns, 0, |ns| - i
  {
    hide Measure, MeasureChildren, StrictNode, StrictNodes, Cost, Costs, Lift, LiftAll, NamesClean, NamesCleanAll, FreshChild, FreshChildren;
    if i == |ns| {
      MeasureNoChildren(ns, depth, b);
    } else {
      var m := Lift(ns[i]);
      LiftAllTail(ns, i);
      FreshChildrenStep(ns, i);
      MeasureChildrenStep(ns, i, depth, b);
      NodesCons(m, LiftAll(ns[i + 1..]), depth);
      MeasureExact(ns[i], depth, b);
      if Within(Plus(b, Cost(m))) {
        MeasureChildrenExact(ns, i + 1, depth, Plus(b, Cost(m)));
      }
    }
  }

  lemma {:induction false} MeasureCleans(n: FlatNode, depth: nat, b: Counts)
    requires Measure(n, depth, b).Ok?
    ensures NamesClean(n)
    decreases n, 1, 0
  {
    hide MeasureProperties, MeasureChildren, PropertyWire, NulFree;
    var named := Measure(n, depth, b);
    var counted := AddNode(b, depth, |n.properties| + 1, |n.children|).value;
    var spent := AddBytes(counted, PropertyWire(|n.name| + 1).value).value;
    MeasurePropertiesCleans(n.properties, 0, spent);
    assert n.children[0..] == n.children;
    MeasureChildrenCleans(n.children, 0, depth + 1, MeasureProperties(n.properties, 0, spent).value);
  }

  lemma {:induction false} MeasurePropertiesCleans(ps: seq<FlatProperty>, i: nat, b: Counts)
    requires i <= |ps| && MeasureProperties(ps, i, b).Ok?
    ensures forall k :: i <= k < |ps| ==> NulFree(ps[k].name)
    decreases |ps| - i
  {
    if i < |ps| {
      LongName(ps[i].name);
      hide PropertyWire, NulFree, PropertyNameOk;
      MeasurePropertiesCleans(ps, i + 1, AddBytes(b, PropertyWire(|ps[i].value|).value).value);
    }
  }

  lemma {:induction false} MeasureChildrenCleans(ns: seq<FlatNode>, i: nat, depth: nat, b: Counts)
    requires i <= |ns| && MeasureChildren(ns, i, depth, b).Ok?
    ensures NamesCleanAll(ns[i..])
    decreases ns, 0, |ns| - i
  {
    if i < |ns| {
      LiftAllTail(ns, i);
      MeasureChildrenStep(ns, i, depth, b);
      hide Measure, MeasureChildren, NamesClean, NamesCleanAll, FreshChild, LiftAll;
      MeasureCleans(ns[i], depth, b);
      MeasureChildrenCleans(ns, i + 1, depth, Measure(ns[i], depth, b).value);
    }
  }

  //////////////////////////////////////////////////////////////////////////////
  // Encoding
  //////////////////////////////////////////////////////////////////////////////

  /**
   Encoding succeeds exactly on the trees with clean property names whose layout is canonical; the
   validator then decodes that layout, and the length is the preflight byte budget.
   */
  lemma EncodeExact(root: FlatNode)
    ensures Encode(root).Ok? <==> NamesClean(root) && Canonical(Lift(root))
    ensures Encode(root).Ok? ==>
              && Encode(root).value == NodeBytes(Lift(root))
              && Decode(Encode(root).value) == Ok(Lift(root))
              && |Encode(root).value| == Measure(root, 0, Counts(0, 0, 0)).value.bytes
  {
    var none := Counts(0, 0, 0);
    hide Measure, StrictNode, Cost, Lift, NamesClean, NodeBytes, Decode;
    assert Plus(none, Cost(Lift(root))) == Cost(Lift(root));
    if Measure(root, 0, none).Ok? {
      MeasureCleans(root, 0, none);
    }
    if NamesClean(root) {
      MeasureExact(root, 0, none);
    }
    if Encode(root).Ok? {
      DecodeExact(Encode(root).value, Lift(root));
      CostBytes(Lift(root));
    }
  }

  //////////////////////////////////////////////////////////////////////////////
  // Reading a tree back
  //////////////////////////////////////////////////////////////////////////////

  /** The source of a layout whose name property comes first in every node. */
  function Lower(n: Node): FlatNode
    decreases n, 1
  {
    var name := if n.properties != [] && n.properties[0].value != [] then n.properties[0].value[..|n.properties[0].value| - 1] else [];
    FlatNode(name, LowerProperties(if n.properties != [] then n.properties[1..] else []), LowerAll(n.children))
  }

  function LowerProperties(ps: seq<Property>): (r: seq<FlatProperty>)
    ensures |r| == |ps| && forall i :: 0 <= i < |ps| ==> r[i] == FlatProperty(NameOf(ps[i]), ps[i].value)
  {
    seq(|ps|, i requires 0 <= i < |ps| => FlatProperty(NameOf(ps[i]), ps[i].value))
  }

  function LowerAll(ns: seq<Node>): seq<FlatNode>
    decreases ns, 0
  {
    if ns == [] then [] else [Lower(ns[0])] + LowerAll(ns[1..])
  }

  /** Every node of the tree starts with its name property. */
  predicate NameFirst(n: Node)
    decreases n, 1
  {
    n.properties != [] && NameOf(n.properties[0]) == NAME && NameFirstAll(n.children)
  }

  predicate NameFirstAll(ns: seq<Node>)
    decreases ns, 0
  {
    ns == [] || (NameFirst(ns[0]) && NameFirstAll(ns[1..]))
  }

  /** A strict property is the lifting of its name and value. */
  lemma LiftLowered(p: Property, depth: nat)
    requires StrictProperty(p, depth)
    ensures LiftProperty(NameOf(p), p.value) == p && NulFree(NameOf(p))
    ensures NameOf(p) == NAME ==> p.value != [] && LiftProperty(NAME, p.value[..|p.value| - 1] + [0]) == p
  {
    var t := Terminator(p.rawName);
    assert Field(NameOf(p)) == p.rawName;
    assert Zeros(PaddingSize(|p.value|)) == p.padding;
    if NameOf(p) == NAME {
      assert p.value[..|p.value| - 1] + [0] == p.value;
    }
  }

  lemma {:induction false} LiftLower(n: Node, depth: nat)
    requires StrictNode(n, depth) && NameFirst(n)
    ensures Lift(Lower(n)) == n && NamesClean(Lower(n))
    decreases n, 1
  {
    hide StrictProperty, LiftProperty, NulFree, NameOf, StrictNodes, NameFirstAll, LiftAll, LowerAll, NamesCleanAll, Distinct, Names, NodeNames, NodeName;
    var ps := n.properties;
    assert StrictProperty(ps[0], depth);
    LiftLowered(ps[0], depth);
    var flat := LowerProperties(ps[1..]);
    forall i | 0 <= i < |flat| ensures LiftProperties(flat)[i] == ps[1..][i] && NulFree(flat[i].name) {
      assert StrictProperty(ps[i + 1], depth);
      LiftLowered(ps[i + 1], depth);
    }
    assert LiftProperties(flat) == ps[1..];
    assert ps == [ps[0]] + ps[1..];
    LiftLowerAll(n.children, depth + 1);
  }

  lemma {:induction false} LiftLowerAll(ns: seq<Node>, depth: nat)
    requires StrictNodes(ns, depth) && NameFirstAll(ns)
    ensures LiftAll(LowerAll(ns)) == ns && NamesCleanAll(LowerAll(ns))
    decreases ns, 0
  {
    hide StrictNode, NameFirst, Lift, Lower, NamesClean;
    if ns != [] {
      LiftLower(ns[0], depth);
      LiftLowerAll(ns[1..], depth);
      assert LowerAll(ns)[1..] == LowerAll(ns[1..]);
    }
  }

  lemma {:induction false} LowerLift(n: FlatNode, depth: nat)
    requires NamesClean(n) && StrictNode(Lift(n), depth)
    ensures Lower(Lift(n)) == n && NameFirst(Lift(n))
    decreases n, 1
  {
    StrictNodeParts(Lift(n), depth);
    hide StrictProperty, LiftProperty, NulFree, NameOf, StrictNode, StrictNodes, NameFirstAll, LiftAll, LowerAll, NamesCleanAll, Distinct, NodeNames, NodeName;
    var p, qs := LiftProperty(NAME, n.name + [0]), LiftProperties(n.properties);
    var all := Lift(n).properties;
    assert all[1..] == qs && all[0] == p;
    LiftedValue(NAME, n.name + [0]);
    FieldIsName(n.name + [0]);
    assert (n.name + [0])[..|n.name|] == n.name;
    PropertiesCons(p, qs, depth);
    forall i | 0 <= i < |qs| ensures LowerProperties(qs)[i] == n.properties[i] {
      LiftedNames(n.properties, depth, i);
      LiftedValue(n.properties[i].name, n.properties[i].value);
    }
    assert LowerProperties(qs) == n.properties;
    LowerLiftAll(n.children, depth + 1);
  }

  lemma LiftedValue(name: seq<byte>, value: seq<byte>)
    ensures LiftProperty(name, value).value == value
  {
  }

  lemma {:induction false} LowerLiftAll(ns: seq<FlatNode>, depth: nat)
    requires NamesCleanAll(ns) && StrictNodes(LiftAll(ns), depth)
    ensures LowerAll(LiftAll(ns)) == ns && NameFirstAll(LiftAll(ns))
    decreases ns, 0
  {
    hide StrictNode, NameFirst, Lift, Lower, NamesClean;
    if ns != [] {
      assert LiftAll(ns)[1..] == LiftAll(ns[1..]);
      LowerLift(ns[0], depth);
      LowerLiftAll(ns[1..], depth);
    }
  }

  /** Decoding what was encoded gives the tree back, so encoding is injective. */
  lemma EncodeDecode(root: FlatNode)
    requires Encode(root).Ok?
    ensures Accepts(Encode(root).value) && Lower(Decode(Encode(root).value).value) == root
  {
    EncodeExact(root);
    hide Encode, Decode, Lift, Lower, NamesClean, StrictNode, Cost;
    LowerLift(root, 0);
  }

  lemma EncodeInjective(a: FlatNode, b: FlatNode)
    requires Encode(a).Ok? && Encode(a) == Encode(b)
    ensures a == b
  {
    hide Encode, Decode, Lower;
    EncodeDecode(a);
    EncodeDecode(b);
  }

  /** The encoder reaches every accepted byte string that puts name properties first, and no other. */
  lemma EncodeImage(bytes: seq<byte>)
    ensures (exists root :: Encode(root) == Ok(bytes)) <==> Accepts(bytes) && NameFirst(Decode(bytes).value)
  {
    if root :| Encode(root) == Ok(bytes) {
      EncodeExact(root);
      hide Encode, Decode, Lift, NamesClean, StrictNode, Cost, NameFirst;
      LowerLift(root, 0);
    }
    if Accepts(bytes) && NameFirst(Decode(bytes).value) {
      var n := Decode(bytes).value;
      hide Encode, Decode, Lift, Lower, NamesClean, StrictNode, Cost, NameFirst, NodeBytes;
      DecodeExact(bytes, n);
      LiftLower(n, 0);
      EncodeExact(Lower(n));
      assert Encode(Lower(n)) == Ok(bytes);
    }
  }
}
