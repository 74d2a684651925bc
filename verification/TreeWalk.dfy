/**
  The child iterator of die::children_range, over any parser of entries.  A
  parser maps a position of the unit to the entry found there; DieTree supplies
  the one that reads bytes.
 */
module TreeWalk {
  import opened Options

  /** DW_AT_sibling: absent, a position, or a value that as_reference refuses. */
  datatype Sibling = Absent | Position(at: nat) | Refused

  datatype Entry = Entry(pos: nat, code: nat, next: nat, hasChildren: bool, sibling: Sibling) | Null(next: nat)

  type Parser = nat -> Option<Entry>

  /** An entry, whether it can be parsed, the position just past its subtree, and its children. */
  datatype Placed = Placed(entry: Entry, readable: bool, end: nat, children: seq<Placed>)

  /** The parser finds the tree's entries at their places, or fails there. */
  ghost predicate Fits(parse: Parser, t: Placed)
    decreases t, 1
  {
    && t.entry.Entry? && parse(t.entry.pos) == (if t.readable then Some(t.entry) else None)
    && if t.entry.hasChildren
       then (t.entry.sibling.Position? ==> t.entry.sibling.at == t.end)
            && FitsAll(parse, t.children, t.entry.next, t.end)
       else t.children == [] && t.end == t.entry.next
  }

  /** Siblings follow one another, and a null entry that ends at `end` follows the last. */
  ghost predicate FitsAll(parse: Parser, ts: seq<Placed>, from: nat, end: nat)
    decreases ts, 0
  {
    if ts == [] then parse(from) == Some(Null(end))
    else Fits(parse, ts[0]) && ts[0].entry.pos == from && FitsAll(parse, ts[1..], ts[0].end, end)
  }

  lemma ConsFits(parse: Parser, t: Placed, ts: seq<Placed>, end: nat)
    requires Fits(parse, t) && FitsAll(parse, ts, t.end, end)
    ensures FitsAll(parse, [t] + ts, t.entry.pos, end)
  {
    assert ([t] + ts)[1..] == ts;
  }

  /** There is an entry where siblings start, if only the null entry, or one that cannot be parsed. */
  lemma FirstParses(parse: Parser, ts: seq<Placed>, from: nat, end: nat)
    requires FitsAll(parse, ts, from, end)
    ensures parse(from).Some? <==> ts == [] || ts[0].readable
  {
  }

  /**
    The iterator gets past the subtree: it never evaluates a sibling attribute
    that as_reference refuses and never parses an entry that cannot be parsed.
    Only entries with children are asked for their sibling, and entries below one
    that has a sibling attribute are not looked at.
   */
  predicate Walkable(t: Placed)
    decreases t, 1
  {
    t.entry.Entry? && t.entry.hasChildren ==>
      match t.entry.sibling
      case Position(_) => true
      case Refused => false
      case Absent => AllWalkable(t.children)
  }

  predicate AllWalkable(ts: seq<Placed>)
    decreases ts, 0
  {
    ts == [] || (ts[0].readable && Walkable(ts[0]) && AllWalkable(ts[1..]))
  }

  /**
    operator++.  Whether it parses the entry after the attributes, follows
    DW_AT_sibling or walks the subtree to its null entry, it arrives at the
    entry right after the subtree; None where as_reference or parse_die throws.
   */
  method Increment(parse: Parser, e: Entry, ghost t: Placed) returns (r: Option<Entry>)
    requires Fits(parse, t) && t.readable && e == t.entry
    ensures r == if Walkable(t) then parse(t.end) else None
    decreases t
  {
    if !e.hasChildren {
      return parse(e.next);
    }
    match e.sibling {
      case Position(at) => return parse(at);
      case Refused => return None;
      case Absent =>
    }
    var sub := parse(e.next);
    ghost var rest, from := t.children, e.next;
    while sub.Some? && sub.value.Entry?
      invariant FitsAll(parse, rest, from, t.end) && sub == parse(from)
      invariant |rest| <= |t.children| && rest == t.children[|t.children| - |rest|..]
      invariant AllWalkable(rest) == AllWalkable(t.children)
      decreases |rest|
    {
      assert rest != [] && rest[0] in t.children;
      FirstParses(parse, rest[1..], rest[0].end, t.end);
      sub := Increment(parse, sub.value, rest[0]);
      if sub.None? {
        return None;
      }
      rest, from := rest[1..], rest[0].end;
    }
    FirstParses(parse, rest, from, t.end);
    if sub.None? {
      return None;
    }
    assert rest == [];
    return parse(sub.value.next);
  }

  /**
    for (auto& c : die.children()): exactly the direct children, in order, if and
    only if the iterator gets past each of them.
   */
  method Children(parse: Parser, e: Entry, ghost t: Placed) returns (r: Option<seq<Entry>>)
    requires Fits(parse, t) && t.readable && e == t.entry
    ensures r.Some? <==> AllWalkable(t.children)
    ensures r.Some? ==> |r.value| == |t.children| && forall k | 0 <= k < |r.value| :: r.value[k] == t.children[k].entry
  {
    var seen: seq<Entry> := [];
    if !e.hasChildren {
      return Some(seen);
    }
    var it := parse(e.next);
    ghost var rest, from := t.children, e.next;
    while it.Some? && it.value.Entry?
      invariant FitsAll(parse, rest, from, t.end) && it == parse(from)
      invariant |seen| + |rest| == |t.children| && rest == t.children[|seen|..]
      invariant forall k | 0 <= k < |seen| :: seen[k] == t.children[k].entry
      invariant AllWalkable(rest) == AllWalkable(t.children)
      decreases |rest|
    {
      assert rest != [];
      FirstParses(parse, rest[1..], rest[0].end, t.end);
      seen := seen + [it.value];
      it := Increment(parse, it.value, rest[0]);
      if it.None? {
        return None;
      }
      rest, from := rest[1..], rest[0].end;
    }
    FirstParses(parse, rest, from, t.end);
    if it.None? {
      return None;
    }
    assert rest == [];
    return Some(seen);
  }

  /** The children of the entry at a position. */
  method ChildrenAt(parse: Parser, p: nat, ghost t: Placed) returns (r: Option<seq<Entry>>)
    requires Fits(parse, t) && t.entry.pos == p
    ensures r.Some? <==> t.readable && AllWalkable(t.children)
    ensures r.Some? ==> |r.value| == |t.children| && forall k | 0 <= k < |r.value| :: r.value[k] == t.children[k].entry
  {
    var e := parse(p);
    if e.None? {
      return None;
    }
    r := Children(parse, e.value, t);
  }

  /** Every entry of these trees can be parsed. */
  predicate AllReadable(ts: seq<Placed>) {
    ts == [] || (ts[0].readable && AllReadable(ts[0].children) && AllReadable(ts[1..]))
  }

  /** The entry as it would be without DW_AT_sibling. */
  function Plain(e: Entry): Entry {
    if e.Entry? then e.(sibling := Absent) else e
  }

  function PlainParser(parse: Parser): Parser {
    (pos: nat) => var r := parse(pos); if r.None? then None else Some(Plain(r.value))
  }

  function PlainTree(t: Placed): Placed
    decreases t, 1
  {
    Placed(Plain(t.entry), t.readable, t.end, PlainForest(t.children))
  }

  function PlainForest(ts: seq<Placed>): (r: seq<Placed>)
    ensures |r| == |ts| && forall k | 0 <= k < |ts| :: r[k].entry == Plain(ts[k].entry) && r[k].readable == ts[k].readable
    decreases ts, 0
  {
    if ts == [] then [] else [PlainTree(ts[0])] + PlainForest(ts[1..])
  }

  /**
    With every sibling attribute ignored the same tree fits and is walked to the
    end if all its entries can be parsed, so that Children yields the same entries
    whether it follows the attributes or walks subtrees.
   */
  lemma {:induction false} SiblingsAreShortcuts(parse: Parser, t: Placed)
    requires Fits(parse, t)
    ensures Fits(PlainParser(parse), PlainTree(t))
    ensures AllReadable(t.children) ==> Walkable(PlainTree(t))
    decreases t, 1
  {
    if t.entry.hasChildren {
      ForestWithoutSiblings(parse, t.children, t.entry.next, t.end);
    }
  }

  lemma {:induction false} ForestWithoutSiblings(parse: Parser, ts: seq<Placed>, from: nat, end: nat)
    requires FitsAll(parse, ts, from, end)
    ensures FitsAll(PlainParser(parse), PlainForest(ts), from, end)
    ensures AllReadable(ts) ==> AllWalkable(PlainForest(ts))
    decreases ts, 0
  {
    if ts != [] {
      SiblingsAreShortcuts(parse, ts[0]);
      ForestWithoutSiblings(parse, ts[1..], ts[0].end, end);
      assert PlainForest(ts)[1..] == PlainForest(ts[1..]);
    }
  }
}
