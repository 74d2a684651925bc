/**
  Parsing one debugging information entry and walking to its children, given
  what a cursor finds at each position: parse_die and the child iterator.
  DieTree supplies the cursor that reads bytes.
 */
module EntryReader {
  import opened Options
  import opened Memory
  import opened Leb128
  import W = TreeWalk
  import opened TreeLayout

  const DW_AT_sibling: nat := 0x01

  datatype Spec = Spec(attr: nat, form: nat)

  datatype Abbrev = Abbrev(tag: nat, hasChildren: bool, specs: seq<Spec>)

  type Abbrevs = map<nat, Abbrev>

  type Skip = (nat, nat) -> Option<nat>

  /**
    What a cursor reads: the ULEB128 number at a position and the position after
    it, the position after the value of a form, the reference of a form.
   */
  datatype Cursor = Cursor(number: nat -> Option<(nat, nat)>, skip: Skip, reference: (nat, nat) -> Option<nat>)

  /** A parsed entry with the positions of its attributes, or a null entry. */
  datatype Die = Die(pos: nat, code: nat, abbrev: Abbrev, next: nat, locs: seq<nat>) | Null(next: nat)

  /** Where each attribute starts, and where the last one ends. */
  function SkipAll(skip: Skip, pos: nat, specs: seq<Spec>): Option<(seq<nat>, nat)>
    decreases specs
  {
    if specs == [] then Some(([], pos)) else
    var next := skip(pos, specs[0].form);
    if next.None? then None else
    var rest := SkipAll(skip, next.value, specs[1..]);
    if rest.None? then None else Some(([pos] + rest.value.0, rest.value.1))
  }

  /** What parse_die returns; None where it throws or reads past the end. */
  function DieAt(cur: Cursor, table: Abbrevs, pos: nat): Option<Die> {
    var code := cur.number(pos);
    if code.None? then None
    else if code.value.0 == 0 then Some(Null(code.value.1))
    else if code.value.0 !in table then None
    else
      var abbrev := table[code.value.0];
      var skipped := SkipAll(cur.skip, code.value.1, abbrev.specs);
      if skipped.None? then None
      else Some(Die(pos, code.value.0, abbrev, skipped.value.1, skipped.value.0))
  }

  lemma {:induction false} SkipAllSplit(skip: Skip, pos: nat, specs: seq<Spec>, i: nat)
    requires i <= |specs|
    ensures var front := SkipAll(skip, pos, specs[..i]);
            SkipAll(skip, pos, specs) ==
              if front.None? then None else
              var back := SkipAll(skip, front.value.1, specs[i..]);
              if back.None? then None else Some((front.value.0 + back.value.0, back.value.1))
    decreases i
  {
    if i == 0 {
      assert specs[0..] == specs;
      var all := SkipAll(skip, pos, specs);
      assert all.Some? ==> [] + all.value.0 == all.value.0;
    } else {
      var next := skip(pos, specs[0].form);
      assert specs[..i][0] == specs[0] && specs[..i][1..] == specs[1..][..i - 1] && specs[1..][i - 1..] == specs[i..];
      if next.Some? {
        SkipAllSplit(skip, next.value, specs[1..], i - 1);
        var front, back := SkipAll(skip, next.value, specs[1..][..i - 1]), SkipAll(skip, pos, specs);
        if front.Some? && back.Some? {
          assert [pos] + (front.value.0 + SkipAll(skip, front.value.1, specs[i..]).value.0)
              == ([pos] + front.value.0) + SkipAll(skip, front.value.1, specs[i..]).value.0;
        }
      }
    }
  }

  lemma OneMoreSpec(skip: Skip, pos: nat, specs: seq<Spec>, i: nat)
    requires i < |specs| && SkipAll(skip, pos, specs[..i]).Some?
    ensures var front := SkipAll(skip, pos, specs[..i]).value;
            var next := skip(front.1, specs[i].form);
            SkipAll(skip, pos, specs[..i + 1]) ==
              if next.None? then None else Some((front.0 + [front.1], next.value))
  {
    var s := specs[..i + 1];
    SkipAllSplit(skip, pos, s, i);
    assert s[..i] == specs[..i] && s[i..] == [specs[i]] && [specs[i]][1..] == [];
    var at := SkipAll(skip, pos, specs[..i]).value.1;
    var next := skip(at, specs[i].form);
    if next.Some? {
      assert SkipAll(skip, next.value, []) == Some(([], next.value));
      assert [at] + [] == [at];
    }
  }

  /** The first attribute of this kind, as die::contains and die::operator[] find it. */
  function FindSpec(specs: seq<Spec>, attr: nat): (k: Option<nat>)
    ensures k.Some? ==> k.value < |specs| && specs[k.value].attr == attr
    ensures k.None? ==> forall i | 0 <= i < |specs| :: specs[i].attr != attr
  {
    if specs == [] then None
    else if specs[0].attr == attr then Some(0)
    else
      var k := FindSpec(specs[1..], attr);
      if k.None? then None else Some(k.value + 1)
  }

  /** The attribute the iterator looks at, evaluated. */
  function SiblingOf(cur: Cursor, locs: seq<nat>, specs: seq<Spec>): W.Sibling
    requires |locs| == |specs|
  {
    var k := FindSpec(specs, DW_AT_sibling);
    if k.None? then W.Absent else
    var ref := cur.reference(locs[k.value], specs[k.value].form);
    if ref.None? then W.Refused else W.Position(ref.value)
  }

  function EntryOf(cur: Cursor, d: Option<Die>): Option<W.Entry> {
    if d.None? then None
    else if d.value.Null? then Some(W.Null(d.value.next))
    else if |d.value.locs| != |d.value.abbrev.specs| then None
    else Some(W.Entry(d.value.pos, d.value.code, d.value.next, d.value.abbrev.hasChildren,
                        SiblingOf(cur, d.value.locs, d.value.abbrev.specs)))
  }

  /** parse_die, as the child iterator uses it. */
  function UnitParser(cur: Cursor, table: Abbrevs): W.Parser {
    (pos: nat) => EntryOf(cur, DieAt(cur, table, pos))
  }

  // ---- a cursor that reads the serialised bytes back ----

  /** The skipper passes over these bytes wherever they stand. */
  ghost predicate PassesOver(skip: Skip, data: seq<Byte>, form: nat, bytes: seq<Byte>) {
    forall q: nat | At(data, q, bytes) :: skip(q, form) == Some(q + |bytes|)
  }

  ghost predicate AllPass(skip: Skip, data: seq<Byte>, attrs: seq<seq<Byte>>, specs: seq<Spec>)
    decreases attrs
  {
    if attrs == [] || specs == [] then attrs == [] && specs == []
    else PassesOver(skip, data, specs[0].form, attrs[0]) && AllPass(skip, data, attrs[1..], specs[1..])
  }

  /** The skipper refuses these bytes wherever they stand. */
  ghost predicate Refuses(skip: Skip, data: seq<Byte>, form: nat, bytes: seq<Byte>) {
    forall q: nat | At(data, q, bytes) :: skip(q, form) == None
  }

  /** The skipper passes over some attributes and refuses the next. */
  ghost predicate Blocked(skip: Skip, data: seq<Byte>, attrs: seq<seq<Byte>>, specs: seq<Spec>)
    decreases attrs
  {
    attrs != [] && specs != [] && (
      || Refuses(skip, data, specs[0].form, attrs[0])
      || (PassesOver(skip, data, specs[0].form, attrs[0]) && Blocked(skip, data, attrs[1..], specs[1..])))
  }

  lemma {:induction false} BlockedFails(skip: Skip, data: seq<Byte>, p: nat, attrs: seq<seq<Byte>>, specs: seq<Spec>)
    requires Blocked(skip, data, attrs, specs) && At(data, p, Flatten(attrs))
    ensures SkipAll(skip, p, specs) == None
    decreases attrs
  {
    AtSplit(data, p, attrs[0], Flatten(attrs[1..]));
    if !Refuses(skip, data, specs[0].form, attrs[0]) {
      BlockedFails(skip, data, p + |attrs[0]|, attrs[1..], specs[1..]);
    }
  }

  /** The attributes are found where their bytes stand. */
  ghost predicate LocsShow(data: seq<Byte>, locs: seq<nat>, attrs: seq<seq<Byte>>)
    decreases attrs
  {
    if attrs == [] || locs == [] then attrs == [] && locs == []
    else At(data, locs[0], attrs[0]) && LocsShow(data, locs[1..], attrs[1..])
  }

  lemma {:induction false} LocShows(data: seq<Byte>, locs: seq<nat>, attrs: seq<seq<Byte>>, i: nat)
    requires LocsShow(data, locs, attrs) && i < |attrs|
    ensures i < |locs| == |attrs| && At(data, locs[i], attrs[i])
    decreases attrs
  {
    if i > 0 {
      LocShows(data, locs[1..], attrs[1..], i - 1);
    } else if |attrs| > 1 {
      LocShows(data, locs[1..], attrs[1..], 0);
    }
  }

  /** Skipping the attributes ends after their bytes; each attribute is found at its place. */
  lemma {:induction false} SkipsAttributes(
      skip: Skip, data: seq<Byte>, p: nat, attrs: seq<seq<Byte>>, specs: seq<Spec>)
    requires AllPass(skip, data, attrs, specs) && At(data, p, Flatten(attrs))
    ensures var r := SkipAll(skip, p, specs);
            && r.Some? && r.value.1 == p + |Flatten(attrs)| && |r.value.0| == |attrs| == |specs|
            && LocsShow(data, r.value.0, attrs)
    decreases attrs
  {
    if attrs != [] {
      AtSplit(data, p, attrs[0], Flatten(attrs[1..]));
      SkipsAttributes(skip, data, p + |attrs[0]|, attrs[1..], specs[1..]);
      var rest := SkipAll(skip, p + |attrs[0]|, specs[1..]).value.0;
      assert ([p] + rest)[1..] == rest;
    }
  }

  /** Wherever these bytes stand the cursor reads the number. */
  ghost predicate NumberReads(cur: Cursor, data: seq<Byte>, bytes: seq<Byte>, value: nat) {
    forall q: nat | At(data, q, bytes) :: cur.number(q) == Some((value, q + |bytes|))
  }

  ghost predicate ReferenceReads(cur: Cursor, data: seq<Byte>, bytes: seq<Byte>, form: nat, value: nat) {
    forall loc: nat | At(data, loc, bytes) :: cur.reference(loc, form) == Some(value)
  }

  ghost predicate ReferenceRefused(cur: Cursor, data: seq<Byte>, bytes: seq<Byte>, form: nat) {
    forall loc: nat | At(data, loc, bytes) :: cur.reference(loc, form) == None
  }

  /** The sibling attribute among the values, if there is one, reads as `sibling`. */
  ghost predicate SiblingReads(cur: Cursor, data: seq<Byte>, attrs: seq<seq<Byte>>, specs: seq<Spec>, sibling: W.Sibling)
    requires |attrs| == |specs|
  {
    var k := FindSpec(specs, DW_AT_sibling);
    if k.None? then sibling == W.Absent else
    match sibling
    case Absent => false
    case Position(at) => ReferenceReads(cur, data, attrs[k.value], specs[k.value].form, at)
    case Refused => ReferenceRefused(cur, data, attrs[k.value], specs[k.value].form)
  }

  /** The cursor reads back all of the entry, or stops at one of its attributes. */
  ghost predicate Reads(cur: Cursor, data: seq<Byte>, table: Abbrevs, n: Node) {
    && n.code != 0 && n.code in table && n.hasChildren == table[n.code].hasChildren
    && |n.attrs| == |table[n.code].specs|
    && NumberReads(cur, data, n.head, n.code)
    && (if n.readable
        then AllPass(cur.skip, data, n.attrs, table[n.code].specs)
             && SiblingReads(cur, data, n.attrs, table[n.code].specs, n.sibling)
        else Blocked(cur.skip, data, n.attrs, table[n.code].specs))
  }

  ghost predicate TreeReads(cur: Cursor, data: seq<Byte>, table: Abbrevs, n: Node) {
    Reads(cur, data, table, n) && forall c | c in n.children :: TreeReads(cur, data, table, c)
  }

  lemma AttributesRead(cur: Cursor, data: seq<Byte>, p: nat, attrs: seq<seq<Byte>>, specs: seq<Spec>, sibling: W.Sibling)
    returns (locs: seq<nat>)
    requires AllPass(cur.skip, data, attrs, specs) && At(data, p, Flatten(attrs))
    requires |attrs| == |specs| && SiblingReads(cur, data, attrs, specs, sibling)
    ensures SkipAll(cur.skip, p, specs) == Some((locs, p + |Flatten(attrs)|))
    ensures |locs| == |specs| && SiblingOf(cur, locs, specs) == sibling
  {
    SkipsAttributes(cur.skip, data, p, attrs, specs);
    locs := SkipAll(cur.skip, p, specs).value.0;
    var k := FindSpec(specs, DW_AT_sibling);
    if k.Some? {
      LocShows(data, locs, attrs, k.value);
    }
  }

  /** parse_die on an entry finds its abbreviation, its attributes and what follows them, or fails. */
  lemma EntryParses(cur: Cursor, data: seq<Byte>, table: Abbrevs, n: Node, q: nat)
    requires Reads(cur, data, table, n) && At(data, q, Own(n))
    ensures UnitParser(cur, table)(q) == if n.readable then Some(OwnEntry(n, q)) else None
  {
    var at := q + |n.head|;
    AtSplit(data, q, n.head, Flatten(n.attrs));
    assert cur.number(q) == Some((n.code, at));
    if n.readable {
      var locs := AttributesRead(cur, data, at, n.attrs, table[n.code].specs, n.sibling);
    } else {
      BlockedFails(cur.skip, data, at, n.attrs, table[n.code].specs);
    }
  }

  lemma {:induction false} TreeParses(cur: Cursor, data: seq<Byte>, table: Abbrevs, n: Node)
    requires TreeReads(cur, data, table, n)
    ensures AllParse(UnitParser(cur, table), data, n)
  {
    forall q: nat | At(data, q, Own(n))
      ensures UnitParser(cur, table)(q) == if n.readable then Some(OwnEntry(n, q)) else None
    {
      EntryParses(cur, data, table, n, q);
    }
    forall c | c in n.children ensures AllParse(UnitParser(cur, table), data, c) {
      TreeParses(cur, data, table, c);
    }
  }

  lemma NullsParse(cur: Cursor, data: seq<Byte>, table: Abbrevs)
    requires NumberReads(cur, data, [0], 0)
    ensures NullParses(UnitParser(cur, table), data)
  {
    forall q: nat | At(data, q, [0]) ensures UnitParser(cur, table)(q) == Some(W.Null(q + 1)) {
      assert cur.number(q).Some? && cur.number(q).value.1 == q + 1;
    }
  }

  /** The bytes of a tree that the cursor reads back are found at the places they were given. */
  lemma UnitFits(cur: Cursor, data: seq<Byte>, table: Abbrevs, n: Node, p: nat)
    requires TreeReads(cur, data, table, n) && NumberReads(cur, data, [0], 0)
    requires At(data, p, Serialise(n)) && Coherent(n, p)
    ensures W.Fits(UnitParser(cur, table), Place(n, p))
  {
    TreeParses(cur, data, table, n);
    NullsParse(cur, data, table);
    SerialisedTreeFits(UnitParser(cur, table), data, n, p);
  }
}
