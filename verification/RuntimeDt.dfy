/**
 Filling the templates of a firmware tree with provided values. The digest that identifies a source
 is a parameter: a binding belongs to a source when their digests are equal.
 */
module RuntimeDt {
  import opened Wrappers
  import opened Words
  import opened DeviceTree
  import FlatCodec
  import FlatDt
  import F = FirmwareDt

  const MAX_OUTPUT_BYTES: nat := 1024 * 1024
  const MAX_BINDINGS: nat := 4096

  /** A value for the template at `offset` of the source with the given digest. */
  datatype Binding = Binding(digest: nat, offset: nat, provider: seq<byte>, value: seq<byte>)

  datatype Error =
    | Firmware(firmware: F.Error)
    | Runtime(runtime: FlatDt.Error)
    | Limits
    | SourceIdentity
    | StructuralTemplate
    | InvalidProvider
    | DuplicateBinding
    | UnknownBinding
    | MissingProviders(missing: seq<nat>)
    | ArithmeticOverflow
    | InvalidRam
    | InvalidReservation
    | DestinationCapacity

  //////////////////////////////////////////////////////////////////////////////
  // Substitution, as a relation between trees
  //////////////////////////////////////////////////////////////////////////////

  /** q is p with its template, if it is one, replaced by the one value bound to its offset. */
  ghost predicate Filled(p: F.FirmwareProperty, q: Property, provided: seq<Binding>) {
    if F.IsTemplate(p.wire) then
      && PropertyShape(q) && q.rawName == p.wire.rawName && q.rawLength == |q.value| && AllZero(q.padding)
      && (exists b :: b in provided && b.offset == p.offset && b.value == q.value)
      && (forall b, c :: b in provided && c in provided && b.offset == p.offset && c.offset == p.offset ==> b == c)
    else q == p.wire
  }

  ghost predicate FilledAll(ps: seq<F.FirmwareProperty>, qs: seq<Property>, provided: seq<Binding>) {
    |ps| == |qs| && forall i :: 0 <= i < |ps| ==> Filled(ps[i], qs[i], provided)
  }

  /** m is n with every template filled and everything else unchanged. */
  ghost predicate FilledNode(n: F.FirmwareNode, m: Node, provided: seq<Binding>)
    decreases n, 1
  {
    FilledAll(n.properties, m.properties, provided) && FilledNodes(n.children, m.children, provided)
  }

  ghost predicate FilledNodes(ns: seq<F.FirmwareNode>, ms: seq<Node>, provided: seq<Binding>)
    decreases ns, 0
  {
    |ns| == |ms| && (ns != [] ==> FilledNode(ns[0], ms[0], provided) && FilledNodes(ns[1..], ms[1..], provided))
  }

  //////////////////////////////////////////////////////////////////////////////
  // The steps as functions
  //////////////////////////////////////////////////////////////////////////////

  /** The first binding for an offset. */
  function Replacement(offset: nat, provided: seq<Binding>): Option<Binding> {
    if provided == [] then None
    else if provided[0].offset == offset then Some(provided[0])
    else Replacement(offset, provided[1..])
  }

  function Collect(n: F.FirmwareNode, ids: seq<nat>): Result<seq<nat>, Error>
    decreases n, 1
  {
    var own :- CollectProperties(n.properties, ids);
    CollectAll(n.children, own)
  }

  function CollectProperties(ps: seq<F.FirmwareProperty>, ids: seq<nat>): Result<seq<nat>, Error> {
    if ps == [] then Ok(ids)
    else if !F.IsTemplate(ps[0].wire) then CollectProperties(ps[1..], ids)
    else if NameOf(ps[0].wire) == NAME then Err(StructuralTemplate)
    else if |ids| == MAX_BINDINGS then Err(Limits)
    else CollectProperties(ps[1..], ids + [ps[0].offset])
  }

  function CollectAll(ns: seq<F.FirmwareNode>, ids: seq<nat>): Result<seq<nat>, Error>
    decreases ns, 0
  {
    if ns == [] then Ok(ids)
    else
      var own :- Collect(ns[0], ids);
      CollectAll(ns[1..], own)
  }

  /** `property_wire_bytes`: padded size, with the checks in the program's order. */
  function WireBytes(length: nat): Result<nat, Error> {
    if !Fits64(length + 3) then Err(ArithmeticOverflow)
    else
      var padded := BitAnd(length + 3, Not64(3));
      if !Fits64(padded + 36) then Err(ArithmeticOverflow)
      else if length >= 0x8000_0000 then Err(Limits)
      else Ok(padded + 36)
  }

  function Add(a: nat, b: nat): Result<nat, Error> {
    if Fits64(a + b) then Ok(a + b) else Err(ArithmeticOverflow)
  }

  function PropertyLength(p: F.FirmwareProperty, provided: seq<Binding>): Result<nat, Error> {
    if !F.IsTemplate(p.wire) then Ok(|p.wire.value|)
    else
      var bound := Replacement(p.offset, provided);
      if bound.None? then Err(UnknownBinding) else Ok(|bound.value.value|)
  }

  function MeasureProperties(ps: seq<F.FirmwareProperty>, provided: seq<Binding>, total: nat): Result<nat, Error> {
    if ps == [] then Ok(total)
    else
      var length :- PropertyLength(ps[0], provided);
      var wire :- WireBytes(length);
      var next :- Add(total, wire);
      MeasureProperties(ps[1..], provided, next)
  }

  function Measure(n: F.FirmwareNode, provided: seq<Binding>, total: nat): Result<nat, Error>
    decreases n, 1
  {
    var headed :- Add(total, 8);
    var own :- MeasureProperties(n.properties, provided, headed);
    MeasureAll(n.children, provided, own)
  }

  function MeasureAll(ns: seq<F.FirmwareNode>, provided: seq<Binding>, total: nat): Result<nat, Error>
    decreases ns, 0
  {
    if ns == [] then Ok(total)
    else
      var own :- Measure(ns[0], provided, total);
      MeasureAll(ns[1..], provided, own)
  }

  /** The property written for p; a template without a binding stays itself. */
  function Fill(p: F.FirmwareProperty, provided: seq<Binding>): Property {
    if !F.IsTemplate(p.wire) || Replacement(p.offset, provided).None? then p.wire
    else
      var value := Replacement(p.offset, provided).value.value;
      Property(p.wire.rawName, if |value| < U32_LIMIT then |value| else 0, value, Zeros(PaddingSize(|value|)))
  }

  function FillAll(ps: seq<F.FirmwareProperty>, provided: seq<Binding>): (r: seq<Property>)
    ensures |r| == |ps| && forall i :: 0 <= i < |ps| ==> r[i] == Fill(ps[i], provided)
  {
    seq(|ps|, i requires 0 <= i < |ps| => Fill(ps[i], provided))
  }

  function FillNode(n: F.FirmwareNode, provided: seq<Binding>): Node
    decreases n, 1
  {
    Node(FillAll(n.properties, provided), FillNodes(n.children, provided))
  }

  function FillNodes(ns: seq<F.FirmwareNode>, provided: seq<Binding>): (r: seq<Node>)
    ensures |r| == |ns|
    decreases ns, 0
  {
    if ns == [] then [] else [FillNode(ns[0], provided)] + FillNodes(ns[1..], provided)
  }

  predicate ProviderOk(provider: seq<byte>) {
    0 < |provider| <= 64 && forall i :: 0 <= i < |provider| ==> ProviderByte(provider[i])
  }

  /** A letter, a digit, or one of `-_.:/`. */
  predicate ProviderByte(c: byte) {
    0x30 <= c <= 0x39 || 0x41 <= c <= 0x5a || 0x61 <= c <= 0x7a
    || c == 0x2d || c == 0x5f || c == 0x2e || c == 0x3a || c == 0x2f
  }

  /** Why the first refused binding from i on is refused. */
  function BindingError(digest: nat, templates: seq<nat>, provided: seq<Binding>, i: nat): Option<Error>
    requires i <= |provided|
    decreases |provided| - i
  {
    if i == |provided| then None
    else if provided[i].digest != digest then Some(SourceIdentity)
    else if !ProviderOk(provided[i].provider) then Some(InvalidProvider)
    else if exists j :: 0 <= j < i && SameProperty(provided[j], provided[i]) then Some(DuplicateBinding)
    else if provided[i].digest != digest || provided[i].offset !in templates then Some(UnknownBinding)
    else BindingError(digest, templates, provided, i + 1)
  }

  predicate SameProperty(a: Binding, b: Binding) {
    a.digest == b.digest && a.offset == b.offset
  }

  function Missing(templates: seq<nat>, provided: seq<Binding>): seq<nat> {
    if templates == [] then []
    else (if Replacement(templates[0], provided).None? then [templates[0]] else []) + Missing(templates[1..], provided)
  }

  datatype Materialized = Materialized(source: seq<byte>, bytes: seq<byte>, digest: nat, replacementCount: nat)

  function Prepare(source: seq<byte>, digest: nat, provided: seq<Binding>, maximumOutput: nat): Result<Materialized, Error> {
    if maximumOutput == 0 || maximumOutput > MAX_OUTPUT_BYTES || |provided| > MAX_BINDINGS then Err(Limits) else
    var parsed := F.Parse(source);
    if parsed.Err? then Err(Firmware(parsed.error)) else
    var root := parsed.value.root;
    var templates :- Collect(root, []);
    if BindingError(digest, templates, provided, 0).Some? then Err(BindingError(digest, templates, provided, 0).value) else
    if Missing(templates, provided) != [] then Err(MissingProviders(Missing(templates, provided))) else
    var length :- Measure(root, provided, 0);
    if length > maximumOutput then Err(Limits) else
    var bytes := NodeBytes(FillNode(root, provided));
    var decoded := FlatDt.Decode(bytes);
    if decoded.Err? then Err(Runtime(decoded.error)) else
    Ok(Materialized(source, bytes, digest, |templates|))
  }

  //////////////////////////////////////////////////////////////////////////////
  // Bindings
  //////////////////////////////////////////////////////////////////////////////

  lemma {:induction false} ReplacementFound(offset: nat, provided: seq<Binding>)
    ensures Replacement(offset, provided).Some? ==>
              Replacement(offset, provided).value in provided && Replacement(offset, provided).value.offset == offset
    ensures Replacement(offset, provided).None? <==> forall b :: b in provided ==> b.offset != offset
  {
    if provided != [] {
      ReplacementFound(offset, provided[1..]);
      assert provided == [provided[0]] + provided[1..];
    }
  }

  /** Binding k is for this source, names one of its templates, and no earlier binding names the same one. */
  predicate BindingOk(digest: nat, templates: seq<nat>, provided: seq<Binding>, k: nat)
    requires k < |provided|
  {
    && provided[k].digest == digest && ProviderOk(provided[k].provider) && provided[k].offset in templates
    && forall j :: 0 <= j < k ==> provided[j].offset != provided[k].offset
  }

  lemma BindingErrorStep(digest: nat, templates: seq<nat>, provided: seq<Binding>, i: nat)
    requires i < |provided| && forall j :: 0 <= j < i ==> provided[j].digest == digest
    ensures if BindingOk(digest, templates, provided, i)
            then BindingError(digest, templates, provided, i) == BindingError(digest, templates, provided, i + 1)
            else BindingError(digest, templates, provided, i).Some?
  {
    hide ProviderOk;
    if provided[i].digest == digest {
      assert forall j :: 0 <= j < i ==> (SameProperty(provided[j], provided[i]) <==> provided[j].offset == provided[i].offset);
    }
  }

  lemma {:induction false} BindingErrorExact(digest: nat, templates: seq<nat>, provided: seq<Binding>, i: nat)
    requires i <= |provided| && forall j :: 0 <= j < i ==> provided[j].digest == digest
    ensures BindingError(digest, templates, provided, i).None? <==>
              forall k :: i <= k < |provided| ==> BindingOk(digest, templates, provided, k)
    decreases |provided| - i
  {
    hide ProviderOk, BindingError;
    if i < |provided| {
      BindingErrorStep(digest, templates, provided, i);
      if BindingOk(digest, templates, provided, i) {
        BindingErrorExact(digest, templates, provided, i + 1);
      }
    } else {
      NoBindingError(digest, templates, provided);
    }
  }

  lemma NoBindingError(digest: nat, templates: seq<nat>, provided: seq<Binding>)
    ensures BindingError(digest, templates, provided, |provided|).None?
  {
  }

  lemma {:induction false} NothingMissing(templates: seq<nat>, provided: seq<Binding>)
    ensures Missing(templates, provided) == [] <==> forall t :: t in templates ==> Replacement(t, provided).Some?
  {
    if templates != [] {
      hide Replacement;
      NothingMissing(templates[1..], provided);
      assert templates == [templates[0]] + templates[1..];
      assert |Missing(templates, provided)| == (if Replacement(templates[0], provided).None? then 1 else 0) + |Missing(templates[1..], provided)|;
    }
  }

  //////////////////////////////////////////////////////////////////////////////
  // Collected templates
  //////////////////////////////////////////////////////////////////////////////

  predicate TemplateIn(ps: seq<F.FirmwareProperty>, t: nat) {
    exists i :: 0 <= i < |ps| && F.IsTemplate(ps[i].wire) && ps[i].offset == t
  }

  /** Some property of the tree stands at offset t and is a template. */
  predicate TemplateAt(n: F.FirmwareNode, t: nat)
    decreases n, 1
  {
    TemplateIn(n.properties, t) || TemplateBelow(n.children, t)
  }

  predicate TemplateBelow(ns: seq<F.FirmwareNode>, t: nat)
    decreases ns, 0
  {
    ns != [] && (TemplateAt(ns[0], t) || TemplateBelow(ns[1..], t))
  }

  /** Collecting finds every template of the tree and nothing else. */
  lemma {:induction false} CollectFinds(n: F.FirmwareNode, ids: seq<nat>, t: nat)
    requires Collect(n, ids).Ok?
    ensures t in Collect(n, ids).value <==> t in ids || TemplateAt(n, t)
    decreases n, 1
  {
    hide CollectProperties, CollectAll, TemplateIn, TemplateBelow;
    CollectPropertiesFinds(n.properties, ids, t);
    CollectAllFinds(n.children, CollectProperties(n.properties, ids).value, t);
  }

  lemma {:induction false} CollectAllFinds(ns: seq<F.FirmwareNode>, ids: seq<nat>, t: nat)
    requires CollectAll(ns, ids).Ok?
    ensures t in CollectAll(ns, ids).value <==> t in ids || TemplateBelow(ns, t)
    decreases ns, 0
  {
    hide Collect, TemplateAt;
    if ns != [] {
      CollectFinds(ns[0], ids, t);
      CollectAllFinds(ns[1..], Collect(ns[0], ids).value, t);
    }
  }

  lemma {:induction false} CollectPropertiesFinds(ps: seq<F.FirmwareProperty>, ids: seq<nat>, t: nat)
    requires CollectProperties(ps, ids).Ok?
    ensures t in CollectProperties(ps, ids).value <==> t in ids || TemplateIn(ps, t)
  {
    hide F.IsTemplate, NameOf, TemplateIn;
    if ps == [] {
      NoTemplateIn(t);
    } else {
      var next := if F.IsTemplate(ps[0].wire) then ids + [ps[0].offset] else ids;
      CollectPropertiesFinds(ps[1..], next, t);
      assert ps == [ps[0]] + ps[1..];
      TemplateInCons(ps[0], ps[1..], t);
    }
  }

  lemma NoTemplateIn(t: nat)
    ensures !TemplateIn([], t)
  {
  }

  lemma TemplateInCons(p: F.FirmwareProperty, rest: seq<F.FirmwareProperty>, t: nat)
    ensures TemplateIn([p] + rest, t) <==> (F.IsTemplate(p.wire) && p.offset == t) || TemplateIn(rest, t)
  {
    hide F.IsTemplate;
    var ps := [p] + rest;
    assert ps[0] == p && forall i :: 0 <= i < |rest| ==> ps[i + 1] == rest[i];
    if TemplateIn(rest, t) {
      var i :| 0 <= i < |rest| && F.IsTemplate(rest[i].wire) && rest[i].offset == t;
      assert ps[i + 1] == rest[i];
    }
  }

  //////////////////////////////////////////////////////////////////////////////
  // Filling
  //////////////////////////////////////////////////////////////////////////////

  /** Bindings whose offsets are pairwise different. */
  predicate OneEach(provided: seq<Binding>) {
    forall i, j :: 0 <= i < j < |provided| ==> provided[i].offset != provided[j].offset
  }

  lemma FillIsFilled(p: F.FirmwareProperty, provided: seq<Binding>)
    requires F.Named(p.wire) && OneEach(provided)
    requires F.IsTemplate(p.wire) ==> Replacement(p.offset, provided).Some? && |Replacement(p.offset, provided).value.value| < 0x8000_0000
    ensures Filled(p, Fill(p, provided), provided) && F.Named(Fill(p, provided)) && !F.IsTemplate(Fill(p, provided))
  {
    hide BitAnd, Printable, Terminator;
    F.LengthBits(p.wire.rawLength);
    F.LengthBits(Fill(p, provided).rawLength);
    ReplacementFound(p.offset, provided);
    if F.IsTemplate(p.wire) {
      var b := Replacement(p.offset, provided).value;
      assert b in provided && b.offset == p.offset && b.value == Fill(p, provided).value;
    }
  }

  lemma PropertyLengthFill(p: F.FirmwareProperty, provided: seq<Binding>)
    requires F.Named(p.wire) && OneEach(provided) && PropertyLength(p, provided).Ok? && WireBytes(PropertyLength(p, provided).value).Ok?
    ensures Filled(p, Fill(p, provided), provided) && F.Named(Fill(p, provided)) && !F.IsTemplate(Fill(p, provided))
    ensures WireBytes(PropertyLength(p, provided).value).value == |PropertyBytes(Fill(p, provided))|
  {
    FillIsFilled(p, provided);
    PropertySize(Fill(p, provided));
    WireSize(PropertyLength(p, provided).value);
    hide WireBytes, PropertyBytes, Terminator, Printable, Filled, BitAnd;
  }

  lemma WireSize(length: nat)
    requires WireBytes(length).Ok?
    ensures WireBytes(length).value == 36 + length + PaddingSize(length) && length < 0x8000_0000
  {
    hide BitAnd, Pow2;
    FlatDt.Pow2Four();
    AndNotLow(length + 3, 2);
  }

  /** Measuring a tree with all templates bound counts exactly the bytes of the filled tree. */
  lemma {:induction false} MeasurePropertiesFill(ps: seq<F.FirmwareProperty>, provided: seq<Binding>, total: nat)
    requires MeasureProperties(ps, provided, total).Ok? && OneEach(provided)
    requires forall i :: 0 <= i < |ps| ==> F.Named(ps[i].wire)
    ensures var qs := FillAll(ps, provided);
            && MeasureProperties(ps, provided, total).value == total + |PropertiesBytes(qs)|
            && FilledAll(ps, qs, provided) && F.AllNamed(qs) && F.Templates(qs) == 0
  {
    hide PropertyLength, WireBytes, PropertyBytes, Fill, F.Named, Filled, F.IsTemplate, OneEach;
    var qs := FillAll(ps, provided);
    if ps != [] {
      var wire := WireBytes(PropertyLength(ps[0], provided).value).value;
      PropertyLengthFill(ps[0], provided);
      MeasurePropertiesFill(ps[1..], provided, total + wire);
      assert qs[1..] == FillAll(ps[1..], provided);
      assert forall i :: 1 <= i < |ps| ==> ps[i] == ps[1..][i - 1] && qs[i] == qs[1..][i - 1];
    }
  }

  lemma {:induction false} LocatedNamed(ps: seq<Property>, at: nat)
    requires F.AllNamed(ps)
    ensures forall i :: 0 <= i < |ps| ==> F.Named(F.LocateProperties(ps, at)[i].wire)
  {
    hide F.Named;
  }

  /** What filling a measured, located tree gives. */
  lemma {:induction false} MeasureFill(n: Node, at: nat, depth: nat, provided: seq<Binding>, total: nat, s: F.Statistics)
    requires F.WellNamed(n, depth) && OneEach(provided) && Measure(F.Locate(n, at), provided, total).Ok?
    ensures var m := FillNode(F.Locate(n, at), provided);
            && Measure(F.Locate(n, at), provided, total).value == total + |NodeBytes(m)|
            && FilledNode(F.Locate(n, at), m, provided) && F.WellNamed(m, depth)
            && F.Tally(s, m, depth) == F.Tally(s, n, depth).(templates := s.templates)
    decreases n, 1
  {
    var l := F.Locate(n, at);
    var m := FillNode(l, provided);
    F.WellNamedParts(n, depth, at, s);
    F.WellNamedParts(m, depth, at, s);
    hide MeasureProperties, MeasureAll, F.AllNamed, F.AllWellNamed, F.Locate, F.LocateProperties, F.LocateAll, F.WellNamed, F.Tally, F.TallyAll, F.Templates,
      PropertiesBytes, NodesBytes, NodeBytes, FilledAll, FilledNodes, OneEach, FillAll, FillNodes;
    LocatedNamed(n.properties, at + 8);
    MeasurePropertiesFill(l.properties, provided, total + 8);
    var own := MeasureProperties(l.properties, provided, total + 8).value;
    var entered := F.Statistics(s.nodes + 1, s.properties + |n.properties|, s.templates, F.Max(s.maximumDepth, depth));
    MeasureFillAll(n.children, at + 8 + |PropertiesBytes(n.properties)|, depth + 1, provided, own, entered);
    TallyTemplates(F.Counted(entered, n.properties), entered, n.children, depth + 1);
    FlatDt.NodeSize(m);
  }

  lemma {:induction false} MeasureFillAll(ns: seq<Node>, at: nat, depth: nat, provided: seq<Binding>, total: nat, s: F.Statistics)
    requires F.AllWellNamed(ns, depth) && OneEach(provided) && MeasureAll(F.LocateAll(ns, at), provided, total).Ok?
    ensures var ms := FillNodes(F.LocateAll(ns, at), provided);
            && MeasureAll(F.LocateAll(ns, at), provided, total).value == total + |NodesBytes(ms)|
            && FilledNodes(F.LocateAll(ns, at), ms, provided) && F.AllWellNamed(ms, depth)
            && F.TallyAll(s, ms, depth) == F.TallyAll(s, ns, depth).(templates := s.templates)
    decreases ns, 0
  {
    hide Measure, F.WellNamed, F.Locate, F.Tally, NodeBytes, FilledNode, FillNode, OneEach;
    if ns != [] {
      var n, rest := ns[0], ns[1..];
      var ls := F.LocateAll(ns, at);
      var next := at + |NodeBytes(n)|;
      var ms := FillNodes(ls, provided);
      assert ls[1..] == F.LocateAll(rest, next);
      assert ms[1..] == FillNodes(ls[1..], provided);
      MeasureFill(n, at, depth, provided, total, s);
      var own := Measure(ls[0], provided, total).value;
      MeasureFillAll(rest, next, depth, provided, own, F.Tally(s, ms[0], depth));
      TallyTemplates(F.Tally(s, n, depth), F.Tally(s, ms[0], depth), rest, depth);
    }
  }

  /** The template count is only added to. */
  lemma {:induction false} TallyTemplates(s: F.Statistics, t: F.Statistics, ns: seq<Node>, depth: nat)
    requires t == s.(templates := t.templates)
    ensures F.TallyAll(t, ns, depth).(templates := 0) == F.TallyAll(s, ns, depth).(templates := 0)
    decreases ns, 0
  {
    hide F.Tally;
    if ns != [] {
      TallyTemplate(s, t, ns[0], depth);
      TallyTemplates(F.Tally(s, ns[0], depth), F.Tally(t, ns[0], depth), ns[1..], depth);
    }
  }

  lemma {:induction false} TallyTemplate(s: F.Statistics, t: F.Statistics, n: Node, depth: nat)
    requires t == s.(templates := t.templates)
    ensures F.Tally(t, n, depth).(templates := 0) == F.Tally(s, n, depth).(templates := 0)
    decreases n, 1
  {
    hide F.TallyAll, F.Templates;
    F.WellNamedParts(n, depth, 0, s);
    F.WellNamedParts(n, depth, 0, t);
    var a := F.Counted(F.Statistics(s.nodes + 1, s.properties + |n.properties|, s.templates, F.Max(s.maximumDepth, depth)), n.properties);
    var b := F.Counted(F.Statistics(t.nodes + 1, t.properties + |n.properties|, t.templates, F.Max(t.maximumDepth, depth)), n.properties);
    TallyTemplates(a, b, n.children, depth + 1);
  }

  //////////////////////////////////////////////////////////////////////////////
  // Collecting, exactly
  //////////////////////////////////////////////////////////////////////////////

  predicate NoNameTemplates(ps: seq<Property>) {
    forall i :: 0 <= i < |ps| ==> !(F.IsTemplate(ps[i]) && NameOf(ps[i]) == NAME)
  }

  predicate NoNameTemplate(n: Node)
    decreases n, 1
  {
    NoNameTemplates(n.properties) && NoNameTemplateAll(n.children)
  }

  predicate NoNameTemplateAll(ns: seq<Node>)
    decreases ns, 0
  {
    ns == [] || (NoNameTemplate(ns[0]) && NoNameTemplateAll(ns[1..]))
  }

  lemma {:induction false} CollectPropertiesExact(ps: seq<Property>, at: nat, ids: seq<nat>)
    requires |ids| <= MAX_BINDINGS
    ensures CollectProperties(F.LocateProperties(ps, at), ids).Ok? <==> NoNameTemplates(ps) && |ids| + F.Templates(ps) <= MAX_BINDINGS
    ensures CollectProperties(F.LocateProperties(ps, at), ids).Ok? ==>
              |CollectProperties(F.LocateProperties(ps, at), ids).value| == |ids| + F.Templates(ps)
  {
    hide F.IsTemplate, NameOf, PropertyBytes, NoNameTemplates;
    if ps == [] {
      NoNamesNil();
    } else {
      var p, rest := ps[0], ps[1..];
      var next := at + |PropertyBytes(p)|;
      assert F.LocateProperties(ps, at)[1..] == F.LocateProperties(rest, next);
      assert ps == [p] + rest;
      NoNamesCons(p, rest);
      if F.IsTemplate(p) && |ids| < MAX_BINDINGS {
        CollectPropertiesExact(rest, next, ids + [at]);
      } else if !F.IsTemplate(p) {
        CollectPropertiesExact(rest, next, ids);
      }
    }
  }

  lemma NoNamesNil()
    ensures NoNameTemplates([])
  {
  }

  lemma NoNamesCons(p: Property, rest: seq<Property>)
    ensures NoNameTemplates([p] + rest) <==> !(F.IsTemplate(p) && NameOf(p) == NAME) && NoNameTemplates(rest)
  {
    hide F.IsTemplate, NameOf;
    var ps := [p] + rest;
    assert ps[0] == p && forall i :: 0 <= i < |rest| ==> ps[i + 1] == rest[i];
  }

  /** Collecting fails exactly on a template of a node name or on too many templates, and finds as many as there are. */
  lemma {:induction false} CollectExact(n: Node, at: nat, depth: nat, ids: seq<nat>, s: F.Statistics)
    requires |ids| <= MAX_BINDINGS
    ensures var added := F.Tally(s, n, depth).templates - s.templates;
            && added >= 0
            && (Collect(F.Locate(n, at), ids).Ok? <==> NoNameTemplate(n) && |ids| + added <= MAX_BINDINGS)
            && (Collect(F.Locate(n, at), ids).Ok? ==> |Collect(F.Locate(n, at), ids).value| == |ids| + added)
    decreases n, 1
  {
    hide CollectProperties, CollectAll, NoNameTemplates, NoNameTemplateAll, F.TallyAll, F.Templates, F.LocateProperties, F.LocateAll, PropertiesBytes;
    var entered := F.Counted(F.Statistics(s.nodes + 1, s.properties + |n.properties|, s.templates, F.Max(s.maximumDepth, depth)), n.properties);
    F.WellNamedParts(n, depth, at, s);
    F.TallyAllGrows(entered, n.children, depth + 1);
    CollectPropertiesExact(n.properties, at + 8, ids);
    var own := CollectProperties(F.LocateProperties(n.properties, at + 8), ids);
    if own.Ok? {
      CollectAllExact(n.children, at + 8 + |PropertiesBytes(n.properties)|, depth + 1, own.value, entered);
    }
    hide F.Tally;
  }

  lemma {:induction false} CollectAllExact(ns: seq<Node>, at: nat, depth: nat, ids: seq<nat>, s: F.Statistics)
    requires |ids| <= MAX_BINDINGS
    ensures var added := F.TallyAll(s, ns, depth).templates - s.templates;
            && added >= 0
            && (CollectAll(F.LocateAll(ns, at), ids).Ok? <==> NoNameTemplateAll(ns) && |ids| + added <= MAX_BINDINGS)
            && (CollectAll(F.LocateAll(ns, at), ids).Ok? ==> |CollectAll(F.LocateAll(ns, at), ids).value| == |ids| + added)
    decreases ns, 0
  {
    hide Collect, NoNameTemplate, F.Tally, F.Locate, NodeBytes;
    if ns != [] {
      var n, rest := ns[0], ns[1..];
      var next := at + |NodeBytes(n)|;
      assert F.LocateAll(ns, at)[1..] == F.LocateAll(rest, next);
      CollectExact(n, at, depth, ids, s);
      F.TallyAllGrows(F.Tally(s, n, depth), rest, depth);
      var own := Collect(F.Locate(n, at), ids);
      if own.Ok? {
        CollectAllExact(rest, next, depth, own.value, F.Tally(s, n, depth));
      }
    }
  }

  //////////////////////////////////////////////////////////////////////////////
  // Filled trees are unique and measurable
  //////////////////////////////////////////////////////////////////////////////

  lemma FilledIsFill(p: F.FirmwareProperty, q: Property, provided: seq<Binding>)
    requires Filled(p, q, provided)
    ensures q == Fill(p, provided)
  {
    hide F.IsTemplate;
    ReplacementFound(p.offset, provided);
    if F.IsTemplate(p.wire) {
      var b :| b in provided && b.offset == p.offset && b.value == q.value;
      assert Replacement(p.offset, provided) == Some(b);
      assert q.padding == Zeros(PaddingSize(|q.value|));
    }
  }

  lemma {:induction false} FilledNodeIsFill(n: F.FirmwareNode, m: Node, provided: seq<Binding>)
    requires FilledNode(n, m, provided)
    ensures m == FillNode(n, provided)
    decreases n, 1
  {
    hide Filled, Fill, FilledNodes, FillNodes;
    forall i | 0 <= i < |n.properties| ensures m.properties[i] == Fill(n.properties[i], provided) {
      FilledIsFill(n.properties[i], m.properties[i], provided);
    }
    assert m.properties == FillAll(n.properties, provided);
    FilledNodesAreFill(n.children, m.children, provided);
  }

  lemma {:induction false} FilledNodesAreFill(ns: seq<F.FirmwareNode>, ms: seq<Node>, provided: seq<Binding>)
    requires FilledNodes(ns, ms, provided)
    ensures ms == FillNodes(ns, provided)
    decreases ns, 0
  {
    hide FilledNode, FillNode;
    if ns != [] {
      FilledNodeIsFill(ns[0], ms[0], provided);
      FilledNodesAreFill(ns[1..], ms[1..], provided);
      assert ms == [ms[0]] + ms[1..];
    }
  }

  lemma PropertyMeasured(p: F.FirmwareProperty, q: Property, provided: seq<Binding>)
    requires F.Named(p.wire) && Filled(p, q, provided)
    ensures PropertyLength(p, provided) == Ok(|q.value|) && WireBytes(|q.value|) == Ok(|PropertyBytes(q)|)
  {
    FilledIsFill(p, q, provided);
    ReplacementFound(p.offset, provided);
    FilledShape(p, q, provided);
    PropertySize(q);
    hide F.Named, BitAnd, Terminator, Printable, PropertyBytes, F.IsTemplate;
    Padded(|q.value|);
  }

  lemma FilledShape(p: F.FirmwareProperty, q: Property, provided: seq<Binding>)
    requires F.Named(p.wire) && Filled(p, q, provided)
    ensures PropertyShape(q) && |q.value| < 0x8000_0000
    ensures F.IsTemplate(p.wire) ==> Replacement(p.offset, provided).Some?
    ensures !F.IsTemplate(p.wire) ==> q == p.wire
  {
    hide F.IsTemplate;
    ReplacementFound(p.offset, provided);
  }

  lemma Padded(n: nat)
    requires n < 0x8000_0000
    ensures WireBytes(n) == Ok(36 + n + PaddingSize(n))
  {
    hide BitAnd, Pow2;
    FlatDt.Pow2Four();
    AndNotLow(n + 3, 2);
  }

  lemma {:induction false} PropertiesMeasured(ps: seq<F.FirmwareProperty>, qs: seq<Property>, provided: seq<Binding>, total: nat)
    requires FilledAll(ps, qs, provided) && Fits64(total + |PropertiesBytes(qs)|)
    requires forall i :: 0 <= i < |ps| ==> F.Named(ps[i].wire)
    ensures MeasureProperties(ps, provided, total) == Ok(total + |PropertiesBytes(qs)|)
  {
    hide PropertyLength, WireBytes, PropertyBytes, F.Named, Filled;
    if ps != [] {
      PropertyMeasured(ps[0], qs[0], provided);
      assert forall i :: 0 <= i < |ps| - 1 ==> ps[1..][i] == ps[i + 1] && qs[1..][i] == qs[i + 1];
      PropertiesMeasured(ps[1..], qs[1..], provided, total + |PropertyBytes(qs[0])|);
    }
  }

  lemma {:induction false} NodeMeasured(n: Node, at: nat, depth: nat, m: Node, provided: seq<Binding>, total: nat)
    requires F.WellNamed(n, depth) && FilledNode(F.Locate(n, at), m, provided) && Fits64(total + |NodeBytes(m)|)
    ensures Measure(F.Locate(n, at), provided, total) == Ok(total + |NodeBytes(m)|)
    decreases n, 1
  {
    F.WellNamedParts(n, depth, at, F.NOTHING);
    FlatDt.NodeSize(m);
    hide MeasureProperties, MeasureAll, F.AllNamed, F.AllWellNamed, F.Locate, F.LocateProperties, F.LocateAll, F.WellNamed, PropertiesBytes, NodesBytes, NodeBytes,
      FilledAll, FilledNodes, F.Tally, F.TallyAll, F.Templates;
    LocatedNamed(n.properties, at + 8);
    PropertiesMeasured(F.LocateProperties(n.properties, at + 8), m.properties, provided, total + 8);
    NodesMeasured(n.children, at + 8 + |PropertiesBytes(n.properties)|, depth + 1, m.children, provided, total + 8 + |PropertiesBytes(m.properties)|);
  }

  lemma {:induction false} NodesMeasured(ns: seq<Node>, at: nat, depth: nat, ms: seq<Node>, provided: seq<Binding>, total: nat)
    requires F.AllWellNamed(ns, depth) && FilledNodes(F.LocateAll(ns, at), ms, provided) && Fits64(total + |NodesBytes(ms)|)
    ensures MeasureAll(F.LocateAll(ns, at), provided, total) == Ok(total + |NodesBytes(ms)|)
    decreases ns, 0
  {
    hide Measure, F.WellNamed, F.Locate, NodeBytes, FilledNode;
    if ns != [] {
      var next := at + |NodeBytes(ns[0])|;
      assert F.LocateAll(ns, at)[1..] == F.LocateAll(ns[1..], next);
      NodeMeasured(ns[0], at, depth, ms[0], provided, total);
      NodesMeasured(ns[1..], next, depth, ms[1..], provided, total + |NodeBytes(ms[0])|);
    }
  }

  //////////////////////////////////////////////////////////////////////////////
  // Preparing
  //////////////////////////////////////////////////////////////////////////////

  /** Each binding is for this source and names a template no other binding names, and no template is left. */
  ghost predicate BindingsFit(digest: nat, root: F.FirmwareNode, provided: seq<Binding>) {
    && |provided| <= MAX_BINDINGS && OneEach(provided)
    && (forall k :: 0 <= k < |provided| ==> provided[k].digest == digest && ProviderOk(provided[k].provider) && TemplateAt(root, provided[k].offset))
    && (forall t :: TemplateAt(root, t) ==> BoundTo(provided, t))
  }

  ghost predicate BoundTo(provided: seq<Binding>, t: nat) {
    exists b :: b in provided && b.offset == t
  }

  /** The binding checks and the list of missing providers decide whether bindings and templates of the tree correspond. */
  lemma BindingsFitExact(digest: nat, root: F.FirmwareNode, provided: seq<Binding>)
    requires |provided| <= MAX_BINDINGS && Collect(root, []).Ok?
    ensures BindingsFit(digest, root, provided) <==>
            BindingError(digest, Collect(root, []).value, provided, 0).None? && Missing(Collect(root, []).value, provided) == []
  {
    var templates := Collect(root, []).value;
    BindingErrorExact(digest, templates, provided, 0);
    NothingMissing(templates, provided);
    hide Collect, BindingError, Missing, ProviderOk, TemplateAt;
    forall t: nat ensures t in templates <==> TemplateAt(root, t) {
      CollectFinds(root, [], t);
    }
    forall t: nat ensures Replacement(t, provided).Some? <==> BoundTo(provided, t) {
      ReplacementFound(t, provided);
    }
    hide Replacement, BoundTo;
    AllBindingsOk(digest, templates, provided);
  }

  lemma AllBindingsOk(digest: nat, templates: seq<nat>, provided: seq<Binding>)
    ensures (forall k :: 0 <= k < |provided| ==> BindingOk(digest, templates, provided, k)) <==>
            OneEach(provided) && forall k :: 0 <= k < |provided| ==> provided[k].digest == digest && ProviderOk(provided[k].provider) && provided[k].offset in templates
  {
    hide ProviderOk;
    if forall k :: 0 <= k < |provided| ==> BindingOk(digest, templates, provided, k) {
      forall i, j | 0 <= i < j < |provided| ensures provided[i].offset != provided[j].offset {
        assert BindingOk(digest, templates, provided, j);
      }
      forall k | 0 <= k < |provided|
        ensures provided[k].digest == digest && ProviderOk(provided[k].provider) && provided[k].offset in templates
      {
        assert BindingOk(digest, templates, provided, k);
      }
    }
  }

  lemma FittingIsOneEach(digest: nat, root: F.FirmwareNode, provided: seq<Binding>)
    requires BindingsFit(digest, root, provided)
    ensures OneEach(provided) && |provided| <= MAX_BINDINGS
  {
    hide TemplateAt, ProviderOk, BoundTo;
  }

  /**
   Preparation succeeds exactly when the source is the layout of a parsable tree, its templates are
   no node names and not too many, the bindings fit them one to one, and the filled tree is canonical
   and short enough.
   */
  ghost predicate Preparable(n: Node, m: Node, digest: nat, provided: seq<Binding>, maximumOutput: nat) {
    && F.Parsable(n) && NoNameTemplate(n) && F.Tally(F.NOTHING, n, 0).templates <= MAX_BINDINGS
    && BindingsFit(digest, F.Locate(n, 0), provided)
    && FilledNode(F.Locate(n, 0), m, provided) && FlatDt.Canonical(m)
    && |NodeBytes(m)| <= maximumOutput <= MAX_OUTPUT_BYTES
  }

  lemma PrepareComplete(n: Node, m: Node, digest: nat, provided: seq<Binding>, maximumOutput: nat)
    requires Preparable(n, m, digest, provided, maximumOutput)
    ensures Prepare(NodeBytes(n), digest, provided, maximumOutput)
            == Ok(Materialized(NodeBytes(n), NodeBytes(m), digest, F.Tally(F.NOTHING, n, 0).templates))
  {
    hide F.Parse, Collect, BindingError, BindingsFit, Missing, Measure, FilledNode, F.Tally, F.Locate, NodeBytes, FlatDt.Decode, FlatDt.Canonical, NoNameTemplate, F.WellNamed, FillNode;
    F.ParseComplete(n);
    CollectExact(n, 0, 0, [], F.NOTHING);
    FittingIsOneEach(digest, F.Locate(n, 0), provided);
    BindingsFitExact(digest, F.Locate(n, 0), provided);
    FilledNodeIsFill(F.Locate(n, 0), m, provided);
    NodeMeasured(n, 0, 0, m, provided, 0);
    FlatDt.DecodeExact(NodeBytes(m), m);
    FlatDt.NodeSize(m);
  }

  lemma PrepareSound(source: seq<byte>, digest: nat, provided: seq<Binding>, maximumOutput: nat) returns (n: Node, m: Node)
    requires Prepare(source, digest, provided, maximumOutput).Ok?
    ensures Preparable(n, m, digest, provided, maximumOutput) && NodeBytes(n) == source
    ensures Prepare(source, digest, provided, maximumOutput).value.bytes == NodeBytes(m)
  {
    hide F.Parse, Collect, BindingError, BindingsFit, Missing, Measure, FilledNode, F.Tally, F.Locate, NodeBytes, FlatDt.Decode, FlatDt.Canonical, NoNameTemplate, F.WellNamed, FillNode;
    n := F.ParseSound(source);
    CollectExact(n, 0, 0, [], F.NOTHING);
    BindingsFitExact(digest, F.Locate(n, 0), provided);
    FittingIsOneEach(digest, F.Locate(n, 0), provided);
    MeasureFill(n, 0, 0, provided, 0, F.NOTHING);
    m := FillNode(F.Locate(n, 0), provided);
    var t := FlatDt.Decode(NodeBytes(m)).value;
    FlatDt.DecodeExact(NodeBytes(m), t);
    F.CanonicalIsParsable(t);
    SameLayout(m, t);
  }

  /** Two parsable trees with the same layout are the same. */
  lemma SameLayout(a: Node, b: Node)
    requires F.Parsable(a) && F.Parsable(b) && NodeBytes(a) == NodeBytes(b)
    ensures a == b
  {
    hide *;
    F.ParseComplete(a);
    F.ParseComplete(b);
    F.LocateInjective(a, b, 0);
  }

  lemma PrepareExact(source: seq<byte>, digest: nat, provided: seq<Binding>, maximumOutput: nat)
    ensures Prepare(source, digest, provided, maximumOutput).Ok? <==>
            exists n, m :: Preparable(n, m, digest, provided, maximumOutput) && NodeBytes(n) == source
  {
    hide Prepare, Preparable, NodeBytes;
    if Prepare(source, digest, provided, maximumOutput).Ok? {
      var n, m := PrepareSound(source, digest, provided, maximumOutput);
    }
    if exists n, m :: Preparable(n, m, digest, provided, maximumOutput) && NodeBytes(n) == source {
      var n, m :| Preparable(n, m, digest, provided, maximumOutput) && NodeBytes(n) == source;
      PrepareComplete(n, m, digest, provided, maximumOutput);
    }
  }

  lemma {:induction false} FilledWithoutTemplates(n: Node, at: nat, depth: nat, m: Node, provided: seq<Binding>, s: F.Statistics)
    requires FilledNode(F.Locate(n, at), m, provided) && F.Tally(s, n, depth).templates == s.templates
    ensures m == n
    decreases n, 1
  {
    var entered := F.Counted(F.Statistics(s.nodes + 1, s.properties + |n.properties|, s.templates, F.Max(s.maximumDepth, depth)), n.properties);
    NoTemplateParts(n, depth, s);
    FilledParts(n, at, m, provided);
    hide Filled, FilledAll, FilledNode, FilledNodes, F.Templates, F.Tally, F.TallyAll, F.LocateProperties, F.LocateAll, PropertiesBytes, F.Counted;
    NoneFilled(n.properties, at + 8, m.properties, provided);
    NoneFilledBelow(n.children, at + 8 + |PropertiesBytes(n.properties)|, depth + 1, m.children, provided, entered);
  }

  lemma NoTemplateParts(n: Node, depth: nat, s: F.Statistics)
    requires F.Tally(s, n, depth).templates == s.templates
    ensures F.Templates(n.properties) == 0
    ensures var entered := F.Counted(F.Statistics(s.nodes + 1, s.properties + |n.properties|, s.templates, F.Max(s.maximumDepth, depth)), n.properties);
            F.TallyAll(entered, n.children, depth + 1).templates == entered.templates
  {
    F.WellNamedParts(n, depth, 0, s);
    hide F.TallyAll, F.Templates, F.LocateProperties, F.LocateAll, PropertiesBytes;
    F.TallyAllGrows(F.Counted(F.Statistics(s.nodes + 1, s.properties + |n.properties|, s.templates, F.Max(s.maximumDepth, depth)), n.properties), n.children, depth + 1);
  }

  lemma FilledParts(n: Node, at: nat, m: Node, provided: seq<Binding>)
    requires FilledNode(F.Locate(n, at), m, provided)
    ensures FilledAll(F.LocateProperties(n.properties, at + 8), m.properties, provided)
    ensures FilledNodes(F.LocateAll(n.children, at + 8 + |PropertiesBytes(n.properties)|), m.children, provided)
  {
    hide FilledAll, F.LocateProperties, F.LocateAll, PropertiesBytes;
  }

  lemma {:induction false} NoTemplateAt(ps: seq<Property>, i: nat)
    requires F.Templates(ps) == 0 && i < |ps|
    ensures !F.IsTemplate(ps[i])
  {
    hide F.IsTemplate;
    if i > 0 {
      NoTemplateAt(ps[1..], i - 1);
    }
  }

  /** Filling properties without templates leaves them as they are. */
  lemma NoneFilled(ps: seq<Property>, at: nat, qs: seq<Property>, provided: seq<Binding>)
    requires FilledAll(F.LocateProperties(ps, at), qs, provided) && F.Templates(ps) == 0
    ensures qs == ps
  {
    hide Filled, F.IsTemplate, F.Templates, F.LocateProperties;
    var ls := F.LocateProperties(ps, at);
    forall i | 0 <= i < |ps| ensures qs[i] == ps[i] {
      NoTemplateAt(ps, i);
      LiteralFilled(ls[i], qs[i], provided);
    }
  }

  lemma LiteralFilled(p: F.FirmwareProperty, q: Property, provided: seq<Binding>)
    requires Filled(p, q, provided) && !F.IsTemplate(p.wire)
    ensures q == p.wire
  {
    hide F.IsTemplate;
  }

  lemma {:induction false} NoneFilledBelow(ns: seq<Node>, at: nat, depth: nat, ms: seq<Node>, provided: seq<Binding>, s: F.Statistics)
    requires FilledNodes(F.LocateAll(ns, at), ms, provided) && F.TallyAll(s, ns, depth).templates == s.templates
    ensures ms == ns
    decreases ns, 0
  {
    hide FilledNode, F.Tally, F.Locate, NodeBytes;
    if ns != [] {
      var next := at + |NodeBytes(ns[0])|;
      assert F.LocateAll(ns, at)[1..] == F.LocateAll(ns[1..], next);
      F.TallyGrows(s, ns[0], depth);
      F.TallyAllGrows(F.Tally(s, ns[0], depth), ns[1..], depth);
      FilledWithoutTemplates(ns[0], at, depth, ms[0], provided, s);
      NoneFilledBelow(ns[1..], next, depth, ms[1..], provided, F.Tally(s, ns[0], depth));
      assert ms == [ms[0]] + ms[1..];
    }
  }

  /**
   What a successful preparation means: the output decodes, and parses again without templates, to the
   source tree with each template replaced by its one bound value and nothing else changed; it has the
   measured length, and a source without templates comes back byte for byte.
   */
  lemma PrepareMeaning(source: seq<byte>, digest: nat, provided: seq<Binding>, maximumOutput: nat) returns (m: Node)
    requires Prepare(source, digest, provided, maximumOutput).Ok?
    ensures var bytes, root := Prepare(source, digest, provided, maximumOutput).value.bytes, F.Parse(source).value.root;
            && FlatDt.Decode(bytes) == Ok(m) && F.Parse(source).Ok? && FilledNode(root, m, provided)
            && F.Parse(bytes).Ok? && F.Parse(bytes).value.root == F.Locate(m, 0) && F.Parse(bytes).value.statistics.templates == 0
            && Measure(root, provided, 0) == Ok(|bytes|) && |bytes| <= maximumOutput
            && Prepare(source, digest, provided, maximumOutput).value.replacementCount == F.Parse(source).value.statistics.templates
            && (F.Parse(source).value.statistics.templates == 0 ==> bytes == source)
  {
    hide *;
    var n, t := PrepareSound(source, digest, provided, maximumOutput);
    m := t;
    PrepareComplete(n, m, digest, provided, maximumOutput);
    PreparedTree(n, m, digest, provided, maximumOutput);
  }

  lemma PreparedTree(n: Node, m: Node, digest: nat, provided: seq<Binding>, maximumOutput: nat)
    requires Preparable(n, m, digest, provided, maximumOutput)
    ensures F.Parse(NodeBytes(n)).Ok? && F.Parse(NodeBytes(n)).value.root == F.Locate(n, 0)
    ensures F.Parse(NodeBytes(n)).value.statistics.templates == F.Tally(F.NOTHING, n, 0).templates
    ensures FlatDt.Decode(NodeBytes(m)) == Ok(m) && FilledNode(F.Locate(n, 0), m, provided)
    ensures F.Parse(NodeBytes(m)).Ok? && F.Parse(NodeBytes(m)).value.root == F.Locate(m, 0)
    ensures F.Parse(NodeBytes(m)).value.statistics.templates == 0
    ensures Measure(F.Locate(n, 0), provided, 0) == Ok(|NodeBytes(m)|) && |NodeBytes(m)| <= maximumOutput
    ensures F.Tally(F.NOTHING, n, 0).templates == 0 ==> m == n
  {
    hide Collect, BindingsFit, Measure, FilledNode, F.Parse, F.Tally, F.Locate, NodeBytes, FlatDt.Decode, FlatDt.Canonical, NoNameTemplate, F.WellNamed;
    F.ParseComplete(n);
    FlatDt.DecodeExact(NodeBytes(m), m);
    F.AcceptedIsParsed(NodeBytes(m));
    NodeMeasured(n, 0, 0, m, provided, 0);
    if F.Tally(F.NOTHING, n, 0).templates == 0 {
      FilledWithoutTemplates(n, 0, 0, m, provided, F.NOTHING);
    }
  }

  //////////////////////////////////////////////////////////////////////////////
  // The steps as the program runs them
  //////////////////////////////////////////////////////////////////////////////

  method CollectTemplates(node: F.FirmwareNode, before: seq<nat>) returns (r: Result<(), Error>, ids: seq<nat>)
    ensures match Collect(node, before) case Ok(c) => r == Ok(()) && ids == c case Err(e) => r == Err(e)
    decreases node, 1
  {
    hide F.IsTemplate, NameOf;
    ids := before;
    assert node.properties[0..] == node.properties;
    for i := 0 to |node.properties|
      invariant CollectProperties(node.properties, before) == CollectProperties(node.properties[i..], ids)
    {
      var property := node.properties[i];
      assert node.properties[i..][1..] == node.properties[i + 1..];
      if F.IsTemplate(property.wire) {
        if NameOf(property.wire) == NAME {
          return Err(StructuralTemplate), ids;
        }
        if |ids| == MAX_BINDINGS {
          return Err(Limits), ids;
        }
        ids := ids + [property.offset];
      }
    }
    r, ids := CollectBelow(node.children, ids);
  }

  method CollectBelow(children: seq<F.FirmwareNode>, before: seq<nat>) returns (r: Result<(), Error>, ids: seq<nat>)
    ensures match CollectAll(children, before) case Ok(c) => r == Ok(()) && ids == c case Err(e) => r == Err(e)
    decreases children, 0
  {
    hide Collect;
    ids := before;
    assert children[0..] == children;
    for i := 0 to |children|
      invariant CollectAll(children, before) == CollectAll(children[i..], ids)
    {
      assert children[i..][1..] == children[i + 1..];
      r, ids := CollectTemplates(children[i], ids);
      if r.Err? {
        return r, ids;
      }
    }
    return Ok(()), ids;
  }

  method MeasureNode(node: F.FirmwareNode, provided: seq<Binding>, before: nat) returns (r: Result<nat, Error>)
    ensures r == Measure(node, provided, before)
    decreases node, 1
  {
    hide F.IsTemplate, Replacement, WireBytes;
    var total :- Add(before, 8);
    ghost var headed := total;
    assert node.properties[0..] == node.properties;
    for i := 0 to |node.properties|
      invariant MeasureProperties(node.properties, provided, headed) == MeasureProperties(node.properties[i..], provided, total)
    {
      assert node.properties[i..][1..] == node.properties[i + 1..];
      var length :- PropertyLength(node.properties[i], provided);
      var wire :- WireBytes(length);
      total :- Add(total, wire);
    }
    r := MeasureBelow(node.children, provided, total);
  }

  method MeasureBelow(children: seq<F.FirmwareNode>, provided: seq<Binding>, before: nat) returns (r: Result<nat, Error>)
    ensures r == MeasureAll(children, provided, before)
    decreases children, 0
  {
    hide Measure;
    var total := before;
    assert children[0..] == children;
    for i := 0 to |children|
      invariant MeasureAll(children, provided, before) == MeasureAll(children[i..], provided, total)
    {
      assert children[i..][1..] == children[i + 1..];
      total :- MeasureNode(children[i], provided, total);
    }
    return Ok(total);
  }

  /** Appends one property, filled. */
  method WriteProperty(property: F.FirmwareProperty, provided: seq<Binding>, out: seq<byte>) returns (bytes: seq<byte>)
    requires F.IsTemplate(property.wire) ==>
               Replacement(property.offset, provided).Some? && |Replacement(property.offset, provided).value.value| < U32_LIMIT
    ensures bytes == out + PropertyBytes(Fill(property, provided))
  {
    hide F.IsTemplate, ToLe, Replacement;
    bytes := out + property.wire.rawName;
    if !F.IsTemplate(property.wire) {
      bytes := bytes + ToLe(property.wire.rawLength, 4);
      bytes := bytes + property.wire.value;
      bytes := bytes + property.wire.padding;
    } else {
      var value := Replacement(property.offset, provided).value.value;
      bytes := bytes + ToLe(|value|, 4);
      bytes := bytes + value;
      bytes := bytes + Zeros(PaddingSize(|value|));
    }
  }

  /** Every template is bound to a value that a length word can hold, as writing needs. */
  predicate Writable(p: F.FirmwareProperty, provided: seq<Binding>) {
    F.IsTemplate(p.wire) ==>
      Replacement(p.offset, provided).Some? && |Replacement(p.offset, provided).value.value| < U32_LIMIT
  }

  predicate WritableNode(n: F.FirmwareNode, provided: seq<Binding>)
    decreases n, 1
  {
    (forall i :: 0 <= i < |n.properties| ==> Writable(n.properties[i], provided)) && WritableNodes(n.children, provided)
  }

  predicate WritableNodes(ns: seq<F.FirmwareNode>, provided: seq<Binding>)
    decreases ns, 0
  {
    ns == [] || (WritableNode(ns[0], provided) && WritableNodes(ns[1..], provided))
  }

  /** A measured tree can be written: no template is left without its binding. */
  lemma {:induction false} MeasuredIsWritable(n: F.FirmwareNode, provided: seq<Binding>, total: nat)
    requires Measure(n, provided, total).Ok?
    ensures WritableNode(n, provided)
    decreases n, 1
  {
    hide MeasureProperties, MeasureAll, Writable, WritableNodes;
    MeasuredProperties(n.properties, provided, total + 8);
    MeasuredAreWritable(n.children, provided, MeasureProperties(n.properties, provided, total + 8).value);
  }

  lemma {:induction false} MeasuredProperties(ps: seq<F.FirmwareProperty>, provided: seq<Binding>, total: nat)
    requires MeasureProperties(ps, provided, total).Ok?
    ensures forall i :: 0 <= i < |ps| ==> Writable(ps[i], provided)
  {
    hide F.IsTemplate, Replacement, BitAnd;
    if ps != [] {
      MeasuredProperties(ps[1..], provided, Add(total, WireBytes(PropertyLength(ps[0], provided).value).value).value);
      assert forall i :: 1 <= i < |ps| ==> ps[i] == ps[1..][i - 1];
      assert Writable(ps[0], provided);
    }
  }

  lemma {:induction false} MeasuredAreWritable(ns: seq<F.FirmwareNode>, provided: seq<Binding>, total: nat)
    requires MeasureAll(ns, provided, total).Ok?
    ensures WritableNodes(ns, provided)
    decreases ns, 0
  {
    hide Measure, WritableNode;
    if ns != [] {
      MeasuredIsWritable(ns[0], provided, total);
      MeasuredAreWritable(ns[1..], provided, Measure(ns[0], provided, total).value);
    }
  }

  /** Appends the layout of the filled tree. */
  method WriteFilled(node: F.FirmwareNode, provided: seq<Binding>, out: seq<byte>) returns (bytes: seq<byte>)
    requires WritableNode(node, provided)
    ensures bytes == out + NodeBytes(FillNode(node, provided))
    decreases node, 1
  {
    hide WritableNodes, PropertiesBytes, NodesBytes, NodeBytes, FillNodes, Fill, ToLe, Writable;
    FilledLayout(node, provided);
    ghost var a, b := ToLe(|node.properties|, 4), ToLe(|node.children|, 4);
    ghost var p, c := PropertiesBytes(FillAll(node.properties, provided)), NodesBytes(FillNodes(node.children, provided));
    ghost var all := FillAll(node.properties, provided);
    bytes := out + ToLe(|node.properties|, 4);
    bytes := bytes + ToLe(|node.children|, 4);
    SomeProperties(all, 0);
    for i := 0 to |node.properties|
      invariant bytes == out + a + b + PropertiesBytes(all[..i])
    {
      SomeProperties(all, i);
      assert Writable(node.properties[i], provided);
      WritableProperty(node.properties[i], provided);
      bytes := WriteProperty(node.properties[i], provided, bytes);
    }
    assert all[..|all|] == all;
    bytes := WriteBelow(node.children, provided, bytes);
    Appended(out, a, b, p, c);
  }

  lemma Appended(out: seq<byte>, a: seq<byte>, b: seq<byte>, p: seq<byte>, c: seq<byte>)
    ensures out + a + b + p + c == out + (a + (b + (p + c)))
  {
  }

  lemma FilledLayout(node: F.FirmwareNode, provided: seq<Binding>)
    ensures NodeBytes(FillNode(node, provided)) ==
            ToLe(|node.properties|, 4) + (ToLe(|node.children|, 4) +
            (PropertiesBytes(FillAll(node.properties, provided)) + NodesBytes(FillNodes(node.children, provided))))
  {
    hide PropertiesBytes, NodesBytes, ToLe, Fill;
  }

  lemma WritableProperty(p: F.FirmwareProperty, provided: seq<Binding>)
    requires Writable(p, provided)
    ensures F.IsTemplate(p.wire) ==>
              Replacement(p.offset, provided).Some? && |Replacement(p.offset, provided).value.value| < U32_LIMIT
  {
    hide F.IsTemplate;
  }

  lemma SomeFilled(ns: seq<F.FirmwareNode>, i: nat, provided: seq<Binding>)
    requires i <= |ns| && WritableNodes(ns, provided)
    ensures NodesBytes(FillNodes(ns[..0], provided)) == []
    ensures i < |ns| ==>
              && NodesBytes(FillNodes(ns[..i + 1], provided)) == NodesBytes(FillNodes(ns[..i], provided)) + NodeBytes(FillNode(ns[i], provided))
              && WritableNode(ns[i], provided)
  {
    hide NodeBytes, FillNode, WritableNode;
    if i < |ns| {
      assert ns[..i + 1] == ns[..i] + [ns[i]];
      FillNodesConcat(ns[..i], ns[i], provided);
      NodesConcat(FillNodes(ns[..i], provided), [FillNode(ns[i], provided)]);
      FlatDt.NodesCons(FillNode(ns[i], provided), [], 0);
      assert [FillNode(ns[i], provided)] + [] == [FillNode(ns[i], provided)];
      WritableAt(ns, provided, i);
    }
  }

  lemma {:induction false} FillNodesConcat(ns: seq<F.FirmwareNode>, n: F.FirmwareNode, provided: seq<Binding>)
    ensures FillNodes(ns + [n], provided) == FillNodes(ns, provided) + [FillNode(n, provided)]
  {
    hide FillNode;
    if ns == [] {
      assert ns + [n] == [n];
    } else {
      assert (ns + [n])[1..] == ns[1..] + [n];
      FillNodesConcat(ns[1..], n, provided);
    }
  }

  lemma {:induction false} WritableAt(ns: seq<F.FirmwareNode>, provided: seq<Binding>, k: nat)
    requires WritableNodes(ns, provided) && k < |ns|
    ensures WritableNode(ns[k], provided)
  {
    hide WritableNode;
    if k > 0 {
      WritableAt(ns[1..], provided, k - 1);
    }
  }

  method WriteBelow(children: seq<F.FirmwareNode>, provided: seq<Binding>, out: seq<byte>) returns (bytes: seq<byte>)
    requires WritableNodes(children, provided)
    ensures bytes == out + NodesBytes(FillNodes(children, provided))
    decreases children, 0
  {
    hide WritableNode, WritableNodes, NodeBytes, NodesBytes, FillNode, FillNodes;
    bytes := out;
    SomeFilled(children, 0, provided);
    for i := 0 to |children|
      invariant bytes == out + NodesBytes(FillNodes(children[..i], provided))
    {
      SomeFilled(children, i, provided);
      bytes := WriteFilled(children[i], provided, bytes);
    }
    assert children[..|children|] == children;
  }

  /** Checks the bindings one by one against the collected templates. */
  method CheckBindings(digest: nat, templates: seq<nat>, provided: seq<Binding>) returns (e: Option<Error>)
    ensures e == BindingError(digest, templates, provided, 0)
  {
    hide ProviderOk, SameProperty;
    for index := 0 to |provided|
      invariant BindingError(digest, templates, provided, 0) == BindingError(digest, templates, provided, index)
    {
      var binding := provided[index];
      if binding.digest != digest {
        return Some(SourceIdentity);
      }
      if !ProviderOk(binding.provider) {
        return Some(InvalidProvider);
      }
      if exists j :: 0 <= j < index && SameProperty(provided[j], binding) {
        return Some(DuplicateBinding);
      }
      if binding.offset !in templates {
        return Some(UnknownBinding);
      }
    }
    return None;
  }

  /** Prepares exactly as Prepare says. */
  method PrepareTree(source: seq<byte>, digest: nat, provided: seq<Binding>, maximumOutput: nat) returns (r: Result<Materialized, Error>)
    ensures r == Prepare(source, digest, provided, maximumOutput)
  {
    hide F.Parse, Collect, BindingError, Missing, Measure, FillNode, NodeBytes, FlatDt.Decode, Replacement, WritableNode;
    if maximumOutput == 0 || maximumOutput > MAX_OUTPUT_BYTES || |provided| > MAX_BINDINGS {
      return Err(Limits);
    }
    var parsed := F.Parser.ParseSource(source);
    if parsed.Err? {
      return Err(Firmware(parsed.error));
    }
    var root := parsed.value.root;
    var collected, templates := CollectTemplates(root, []);
    if collected.Err? {
      return Err(collected.error);
    }
    var refused := CheckBindings(digest, templates, provided);
    if refused.Some? {
      return Err(refused.value);
    }
    var missing := FindMissing(templates, provided);
    if missing != [] {
      return Err(MissingProviders(missing));
    }
    var length :- MeasureNode(root, provided, 0);
    if length > maximumOutput {
      return Err(Limits);
    }
    MeasuredIsWritable(root, provided, 0);
    var bytes := WriteFilled(root, provided, []);
    assert [] + NodeBytes(FillNode(root, provided)) == NodeBytes(FillNode(root, provided));
    var checked := FlatCodec.Validate(bytes);
    if checked.Err? {
      return Err(Runtime(checked.error));
    }
    return Ok(Materialized(source, bytes, digest, |templates|));
  }

  method FindMissing(templates: seq<nat>, provided: seq<Binding>) returns (missing: seq<nat>)
    ensures missing == Missing(templates, provided)
  {
    hide Replacement;
    missing := [];
    assert templates[0..] == templates;
    for i := 0 to |templates|
      invariant missing + Missing(templates[i..], provided) == Missing(templates, provided)
    {
      assert templates[i..][1..] == templates[i + 1..];
      if Replacement(templates[i], provided).None? {
        missing := missing + [templates[i]];
      }
    }
    assert templates[|templates|..] == [];
  }

  //////////////////////////////////////////////////////////////////////////////
  // Writing into reserved memory
  //////////////////////////////////////////////////////////////////////////////

  /** Why bytes of this length cannot be written to a reservation of the memory at `base`. */
  function WriteError(length: nat, ramSize: nat, base: u64, address: u64, capacity: u64): Option<Error> {
    if ramSize == 0 then Some(InvalidRam)
    else if !Fits64(base + ramSize) then Some(ArithmeticOverflow)
    else if !Fits64(address + capacity) then Some(ArithmeticOverflow)
    else if capacity == 0 || address % 4 != 0 || address < base || address + capacity > base + ramSize then Some(InvalidReservation)
    else if length > capacity then Some(DestinationCapacity)
    else None
  }

  /** Copies prepared bytes to a declared reservation, or changes nothing. */
  method WriteReserved(bytes: seq<byte>, ram: array<byte>, base: u64, address: u64, capacity: u64) returns (r: Result<(), Error>)
    modifies ram
    ensures r == match WriteError(|bytes|, ram.Length, base, address, capacity) case Some(e) => Err(e) case None => Ok(())
    ensures r.Err? ==> ram[..] == old(ram[..])
    ensures r.Ok? ==> base <= address && address - base + |bytes| <= ram.Length
                      && ram[..] == Store(old(ram[..]), address - base, bytes)
  {
    if ram.Length == 0 {
      return Err(InvalidRam);
    }
    if !Fits64(base + ram.Length) || !Fits64(address + capacity) {
      return Err(ArithmeticOverflow);
    }
    if capacity == 0 || address % 4 != 0 || address < base || address + capacity > base + ram.Length {
      return Err(InvalidReservation);
    }
    if |bytes| > capacity {
      return Err(DestinationCapacity);
    }
    var offset := address - base;
    forall i | 0 <= i < |bytes| {
      ram[offset + i] := bytes[i];
    }
    assert ram[..] == Store(old(ram[..]), offset, bytes);
    return Ok(());
  }

  /** Prepares and writes in one step; any error leaves the memory as it was. */
  method MaterializeInto(source: seq<byte>, digest: nat, provided: seq<Binding>, maximumOutput: nat,
                         ram: array<byte>, base: u64, address: u64, capacity: u64) returns (r: Result<nat, Error>)
    modifies ram
    ensures r.Err? ==> ram[..] == old(ram[..])
    ensures r.Ok? ==>
              && Prepare(source, digest, provided, maximumOutput).Ok?
              && var bytes := Prepare(source, digest, provided, maximumOutput).value.bytes;
              && r.value == |bytes| && base <= address && address - base + |bytes| <= ram.Length
              && ram[..] == Store(old(ram[..]), address - base, bytes)
    ensures r.Ok? <==> (Prepare(source, digest, provided, maximumOutput).Ok?
                        && WriteError(|Prepare(source, digest, provided, maximumOutput).value.bytes|, ram.Length, base, address, capacity).None?)
  {
    hide Prepare;
    var tree :- PrepareTree(source, digest, provided, maximumOutput);
    var _ :- WriteReserved(tree.bytes, ram, base, address, capacity);
    return Ok(|tree.bytes|);
  }
}
