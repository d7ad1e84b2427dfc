/**
 The byte layout shared by firmware and runtime device trees: a node is two counts, its properties
 and its children; a property is a 32-byte name field, a length word, a value and padding.
 */
module DeviceTree {
  import opened Wrappers
  import opened Words

  datatype Property = Property(rawName: seq<byte>, rawLength: u32, value: seq<byte>, padding: seq<byte>)

  datatype Node = Node(properties: seq<Property>, children: seq<Node>)

  //////////////////////////////////////////////////////////////////////////////
  // Layout
  //////////////////////////////////////////////////////////////////////////////

  function PropertyBytes(p: Property): seq<byte> {
    p.rawName + (ToLe(p.rawLength, 4) + (p.value + p.padding))
  }

  function PropertiesBytes(ps: seq<Property>): seq<byte> {
    if ps == [] then [] else PropertyBytes(ps[0]) + PropertiesBytes(ps[1..])
  }

  function NodeBytes(n: Node): seq<byte>
    decreases n, 1
  {
    ToLe(|n.properties|, 4) + (ToLe(|n.children|, 4) + (PropertiesBytes(n.properties) + NodesBytes(n.children)))
  }

  function NodesBytes(ns: seq<Node>): seq<byte>
    decreases ns, 0
  {
    if ns == [] then [] else NodeBytes(ns[0]) + NodesBytes(ns[1..])
  }

  /** Padding that brings a value to a multiple of four bytes. */
  function PaddingSize(n: nat): (k: nat)
    ensures k < 4 && (n + k) % 4 == 0
  {
    (4 - n % 4) % 4
  }

  /** The sizes of the parts agree with the length word; its top bit marks a template. */
  predicate PropertyShape(p: Property) {
    && |p.rawName| == 32
    && |p.value| == p.rawLength % 0x8000_0000
    && |p.padding| == PaddingSize(|p.value|)
  }

  //////////////////////////////////////////////////////////////////////////////
  // Reading
  //////////////////////////////////////////////////////////////////////////////

  /** `part` stands at offset `at` of s. */
  predicate At(s: seq<byte>, at: nat, part: seq<byte>) {
    at + |part| <= |s| && s[at..at + |part|] == part
  }

  lemma AtConcat(s: seq<byte>, at: nat, a: seq<byte>, b: seq<byte>)
    ensures At(s, at, a + b) <==> At(s, at, a) && At(s, at + |a|, b)
  {
    if At(s, at, a + b) {
      assert a == (a + b)[..|a|] && b == (a + b)[|a|..];
      assert s[at..at + |a|] == s[at..at + |a + b|][..|a|];
      assert s[at + |a|..at + |a| + |b|] == s[at..at + |a + b|][|a|..];
    }
  }

  lemma AtAll(s: seq<byte>, part: seq<byte>)
    ensures At(s, 0, part) && |part| == |s| <==> s == part
  {
    assert s[0..|s|] == s;
  }

  lemma AtExtended(s: seq<byte>, at: nat, part: seq<byte>, more: seq<byte>)
    requires At(s, at, part)
    ensures At(s + more, at, part)
  {
    assert (s + more)[at..at + |part|] == s[at..at + |part|];
  }

  /** The next `size` bytes, if there are that many. */
  function Slice(s: seq<byte>, at: nat, size: nat): Option<seq<byte>> {
    if at + size <= |s| then Some(s[at..at + size]) else None
  }

  lemma SliceAt(s: seq<byte>, at: nat, part: seq<byte>)
    ensures At(s, at, part) <==> Slice(s, at, |part|) == Some(part)
  {
  }

  lemma WordAt(s: seq<byte>, at: nat, v: u32)
    ensures |ToLe(v, 4)| == 4
    ensures At(s, at, ToLe(v, 4)) <==> at + 4 <= |s| && Le(s[at..at + 4]) == v
    ensures at + 4 <= |s| ==> Le(s[at..at + 4]) < 0x1_0000_0000
  {
    Pow2Word();
    LeToLe(v, 4);
    if at + 4 <= |s| {
      LeBound(s[at..at + 4]);
      ToLeLe(s[at..at + 4]);
    }
  }

  /** The name a name field holds: the bytes before its first zero. */
  function Terminator(b: seq<byte>): (t: nat)
    ensures t <= |b|
    ensures forall i :: 0 <= i < t ==> b[i] != 0
    ensures t < |b| ==> b[t] == 0
  {
    if b == [] || b[0] == 0 then 0 else 1 + Terminator(b[1..])
  }

  function NameOf(p: Property): seq<byte> {
    p.rawName[..Terminator(p.rawName)]
  }

  predicate AllZero(b: seq<byte>) {
    forall i :: 0 <= i < |b| ==> b[i] == 0
  }

  predicate Printable(b: seq<byte>) {
    forall i :: 0 <= i < |b| ==> 0x20 <= b[i] <= 0x7e
  }

  /** The four bytes of `name`. */
  const NAME: seq<byte> := [0x6e, 0x61, 0x6d, 0x65]

  //////////////////////////////////////////////////////////////////////////////
  // Sizes
  //////////////////////////////////////////////////////////////////////////////

  lemma PropertySize(p: Property)
    requires PropertyShape(p)
    ensures |PropertyBytes(p)| == 36 + |p.value| + PaddingSize(|p.value|)
  {
  }

  lemma {:induction false} PropertiesConcat(a: seq<Property>, b: seq<Property>)
    ensures PropertiesBytes(a + b) == PropertiesBytes(a) + PropertiesBytes(b)
  {
    hide PropertyBytes;
    if a == [] {
      assert a + b == b;
    } else {
      PropertiesConcat(a[1..], b);
      assert (a + b)[1..] == a[1..] + b;
    }
  }

  /** The layout of the first properties of a list, one more at a time. */
  lemma SomeProperties(ps: seq<Property>, i: nat)
    requires i <= |ps|
    ensures PropertiesBytes(ps[..0]) == [] && |PropertiesBytes(ps[..i])| <= |PropertiesBytes(ps)|
    ensures i < |ps| ==> PropertiesBytes(ps[..i + 1]) == PropertiesBytes(ps[..i]) + PropertyBytes(ps[i])
  {
    hide PropertyBytes;
    assert ps == ps[..i] + ps[i..];
    PropertiesConcat(ps[..i], ps[i..]);
    if i < |ps| {
      assert ps[..i + 1] == ps[..i] + [ps[i]];
      PropertiesConcat(ps[..i], [ps[i]]);
      OnlyProperty(ps[i]);
    }
  }

  lemma OnlyProperty(p: Property)
    ensures PropertiesBytes([p]) == PropertyBytes(p)
  {
    hide PropertyBytes;
    assert PropertiesBytes([]) == [] && PropertyBytes(p) + [] == PropertyBytes(p);
  }

  lemma {:induction false} NodesConcat(a: seq<Node>, b: seq<Node>)
    ensures NodesBytes(a + b) == NodesBytes(a) + NodesBytes(b)
  {
    hide NodeBytes;
    if a == [] {
      assert a + b == b;
    } else {
      NodesConcat(a[1..], b);
      assert (a + b)[1..] == a[1..] + b;
    }
  }

  lemma {:induction false} PropertiesAtLeast(ps: seq<Property>)
    requires forall p :: p in ps ==> PropertyShape(p)
    ensures |PropertiesBytes(ps)| >= 36 * |ps|
  {
    if ps != [] {
      PropertySize(ps[0]);
      PropertiesAtLeast(ps[1..]);
    }
  }

  lemma {:induction false} NodesAtLeast(ns: seq<Node>)
    ensures |NodesBytes(ns)| >= 8 * |ns|
  {
    if ns != [] {
      NodesAtLeast(ns[1..]);
    }
  }
}
