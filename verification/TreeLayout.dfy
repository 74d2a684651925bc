/**
  Preorder serialisation of a tree of entries, section 2.3 of the DWARF 4
  standard, and the positions it gives them.  What an entry's own bytes look
  like is left to the parser.
 */
module TreeLayout {
  import opened Options
  import opened Memory
  import opened Leb128
  import W = TreeWalk

  /** An entry: its code's bytes, one value per attribute, whether parse_die can pass them all, and its children. */
  datatype Node = Node(
    head: seq<Byte>,
    attrs: seq<seq<Byte>>,
    code: nat,
    hasChildren: bool,
    sibling: W.Sibling,
    readable: bool,
    children: seq<Node>)

  function Flatten(parts: seq<seq<Byte>>): seq<Byte> {
    if parts == [] then [] else parts[0] + Flatten(parts[1..])
  }

  function Own(n: Node): seq<Byte> {
    n.head + Flatten(n.attrs)
  }

  /** The entry, then its children and a null entry if its abbreviation says it may have any. */
  function Serialise(n: Node): seq<Byte>
    decreases n, 1
  {
    Own(n) + if n.hasChildren then SerialiseAll(n.children) + [0] else []
  }

  function SerialiseAll(ns: seq<Node>): seq<Byte>
    decreases ns, 0
  {
    if ns == [] then [] else Serialise(ns[0]) + SerialiseAll(ns[1..])
  }

  function OwnEntry(n: Node, p: nat): W.Entry {
    W.Entry(p, n.code, p + |Own(n)|, n.hasChildren, n.sibling)
  }

  /** The tree with the positions it gets when it is serialised at p. */
  function Place(n: Node, p: nat): (t: W.Placed)
    ensures t.entry == OwnEntry(n, p)
    decreases n, 1
  {
    W.Placed(OwnEntry(n, p), n.readable, p + |Serialise(n)|, PlaceAll(n.children, p + |Own(n)|))
  }

  function PlaceAll(ns: seq<Node>, p: nat): (r: seq<W.Placed>)
    ensures |r| == |ns| && forall k | 0 <= k < |ns| :: r[k].entry.Entry? && r[k].entry.code == ns[k].code
    decreases ns, 0
  {
    if ns == [] then [] else [Place(ns[0], p)] + PlaceAll(ns[1..], p + |Serialise(ns[0])|)
  }

  /** A leaf's abbreviation allows no children, and a DW_AT_sibling that can be read leads just past the subtree. */
  predicate Coherent(n: Node, p: nat)
    decreases n, 1
  {
    && (n.hasChildren && n.sibling.Position? ==> n.sibling.at == p + |Serialise(n)|)
    && (!n.hasChildren ==> n.children == [])
    && AllCoherent(n.children, p + |Own(n)|)
  }

  predicate AllCoherent(ns: seq<Node>, p: nat)
    decreases ns, 0
  {
    ns == [] || (Coherent(ns[0], p) && AllCoherent(ns[1..], p + |Serialise(ns[0])|))
  }

  /** Wherever the entry's own bytes stand in the data, the parser finds the entry, or fails. */
  ghost predicate OwnParses(parse: W.Parser, data: seq<Byte>, n: Node) {
    forall q: nat | At(data, q, Own(n)) :: parse(q) == if n.readable then Some(OwnEntry(n, q)) else None
  }

  ghost predicate NullParses(parse: W.Parser, data: seq<Byte>) {
    forall q: nat | At(data, q, [0]) :: parse(q) == Some(W.Null(q + 1))
  }

  ghost predicate AllParse(parse: W.Parser, data: seq<Byte>, n: Node) {
    OwnParses(parse, data, n) && forall c | c in n.children :: AllParse(parse, data, c)
  }

  lemma AtPart(data: seq<Byte>, p: nat, bytes: seq<Byte>, i: nat, j: nat)
    requires At(data, p, bytes) && i <= j <= |bytes|
    ensures At(data, p + i, bytes[i..j])
  {
    assert forall k | i <= k < j :: data[p + k] == bytes[k];
  }

  lemma AtSplit(data: seq<Byte>, p: nat, a: seq<Byte>, b: seq<Byte>)
    requires At(data, p, a + b)
    ensures At(data, p, a) && At(data, p + |a|, b)
  {
    AtPart(data, p, a + b, 0, |a|);
    AtPart(data, p, a + b, |a|, |a + b|);
    assert (a + b)[0..|a|] == a && (a + b)[|a|..|a + b|] == b;
  }

  /** A serialised tree is found by the parser at the places it was given. */
  lemma {:induction false} SerialisedTreeFits(parse: W.Parser, data: seq<Byte>, n: Node, p: nat)
    requires At(data, p, Serialise(n)) && Coherent(n, p)
    requires AllParse(parse, data, n) && NullParses(parse, data)
    ensures W.Fits(parse, Place(n, p))
    decreases n, 1
  {
    var own, from := Own(n), p + |Own(n)|;
    if n.hasChildren {
      var tail := SerialiseAll(n.children) + [0];
      AtSplit(data, p, own, tail);
      assert p + |Serialise(n)| == from + |SerialiseAll(n.children)| + 1;
      SerialisedForestFits(parse, data, n.children, from);
    } else {
      AtSplit(data, p, own, []);
    }
    assert parse(p) == if n.readable then Some(OwnEntry(n, p)) else None;
  }

  lemma {:induction false} SerialisedForestFits(parse: W.Parser, data: seq<Byte>, ns: seq<Node>, q: nat)
    requires At(data, q, SerialiseAll(ns) + [0]) && AllCoherent(ns, q)
    requires (forall c | c in ns :: AllParse(parse, data, c)) && NullParses(parse, data)
    ensures W.FitsAll(parse, PlaceAll(ns, q), q, q + |SerialiseAll(ns)| + 1)
    decreases ns, 0
  {
    if ns == [] {
      assert SerialiseAll(ns) + [0] == [0];
    } else {
      var first, rest := Serialise(ns[0]), SerialiseAll(ns[1..]);
      assert SerialiseAll(ns) + [0] == first + (rest + [0]);
      AtSplit(data, q, first, rest + [0]);
      SerialisedTreeFits(parse, data, ns[0], q);
      SerialisedForestFits(parse, data, ns[1..], q + |first|);
      W.ConsFits(parse, Place(ns[0], q), PlaceAll(ns[1..], q + |first|), q + |SerialiseAll(ns)| + 1);
    }
  }

  /** Each tree of a serialised forest stands, serialised, at its own place. */
  lemma {:induction false} ChildStands(data: seq<Byte>, ns: seq<Node>, q: nat, k: nat)
    requires k < |ns| && At(data, q, SerialiseAll(ns)) && AllCoherent(ns, q)
    ensures var p := PlaceAll(ns, q)[k].entry.pos;
            At(data, p, Serialise(ns[k])) && Coherent(ns[k], p)
    decreases ns
  {
    var first := Serialise(ns[0]);
    AtSplit(data, q, first, SerialiseAll(ns[1..]));
    if k > 0 {
      ChildStands(data, ns[1..], q + |first|, k - 1);
      assert PlaceAll(ns, q)[k] == PlaceAll(ns[1..], q + |first|)[k - 1];
    }
  }

  lemma SubtreeStands(data: seq<Byte>, n: Node, p: nat, k: nat)
    requires At(data, p, Serialise(n)) && Coherent(n, p) && k < |n.children|
    ensures var child, q := n.children[k], PlaceAll(n.children, p + |Own(n)|)[k].entry.pos;
            At(data, q, Serialise(child)) && Coherent(child, q)
  {
    AtSplit(data, p, Own(n), SerialiseAll(n.children) + [0]);
    AtSplit(data, p + |Own(n)|, SerialiseAll(n.children), [0]);
    ChildStands(data, n.children, p + |Own(n)|, k);
  }

  /**
    On its way past the tree the iterator evaluates no sibling attribute that
    as_reference refuses and parses no entry that cannot be parsed.
   */
  predicate Passable(n: Node)
    decreases n, 1
  {
    n.hasChildren ==>
      match n.sibling
      case Position(_) => true
      case Refused => false
      case Absent => AllPassable(n.children)
  }

  predicate AllPassable(ns: seq<Node>)
    decreases ns, 0
  {
    ns == [] || (ns[0].readable && Passable(ns[0]) && AllPassable(ns[1..]))
  }

  lemma {:induction false} PlacedPassable(n: Node, p: nat)
    ensures W.Walkable(Place(n, p)) <==> Passable(n)
    decreases n, 1
  {
    AllPlacedPassable(n.children, p + |Own(n)|);
  }

  lemma {:induction false} AllPlacedPassable(ns: seq<Node>, p: nat)
    ensures W.AllWalkable(PlaceAll(ns, p)) <==> AllPassable(ns)
    decreases ns, 0
  {
    if ns != [] {
      PlacedPassable(ns[0], p);
      AllPlacedPassable(ns[1..], p + |Serialise(ns[0])|);
      assert PlaceAll(ns, p)[1..] == PlaceAll(ns[1..], p + |Serialise(ns[0])|);
    }
  }
}
