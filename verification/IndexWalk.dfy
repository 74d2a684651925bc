/**
  What indexing the entries of all compile units enters into the three indexes of
  gsdb::dwarf: a preorder walk that stops with an error at the first entry,
  reference or sibling that cannot be read.
 */
module IndexWalk {
  import opened Options

  datatype Tag = Subprogram | InlinedSubroutine | Variable | OtherTag

  /**
    A debugging information entry.  `name` is what die::name finds, directly or
    through a reference, if that can be read; `origin` is the position that
    DW_AT_specification, or else DW_AT_abstract_origin, refers to, if that can.
    `readable` says that parse_die reads the entry, `passable` that the child
    iterator gets past it.
   */
  datatype Die = Die(
    tag: Tag,
    hasRange: bool,
    hasLocation: bool,
    name: Option<string>,
    nameReads: bool,
    origin: Option<nat>,
    originReads: bool,
    readable: bool,
    passable: bool,
    children: seq<Die>)

  datatype Entry = Entry(name: string, die: Die)

  predicate IsCode(tag: Tag) {
    tag == Subprogram || tag == InlinedSubroutine
  }

  predicate IsFunction(d: Die) {
    IsCode(d.tag)
  }

  // ---- the specification: a preorder walk ----

  datatype Effect = AddFunction(entry: Entry) | AddMember(position: nat, die: Die) | AddVariable(entry: Entry)

  /** What a walk enters into the indexes, and whether it gets to its end. */
  datatype Walked = Walked(effects: seq<Effect>, complete: bool)

  const Nothing := Walked([], true)

  function Then(a: Walked, b: Walked): Walked {
    if a.complete then Walked(a.effects + b.effects, b.complete) else a
  }

  /** Something that is read on the way; a tolerant walk is not stopped by it. */
  function Read(fine: bool, tolerant: bool, effects: seq<Effect>): Walked {
    if fine || tolerant then Walked(effects, true) else Walked([], false)
  }

  function FunctionEffects(d: Die, tolerant: bool): Walked {
    if !(d.hasRange && IsFunction(d)) then Nothing
    else Read(d.nameReads, tolerant, if d.name.Some? then [AddFunction(Entry(d.name.value, d))] else [])
  }

  function MemberEffects(d: Die, tolerant: bool): Walked {
    if !(IsFunction(d) && d.origin.Some?) then Nothing
    else Read(d.originReads, tolerant, [AddMember(d.origin.value, d)])
  }

  function VariableEffects(d: Die, inFunction: bool, tolerant: bool): Walked {
    if !(d.hasLocation && d.tag == Variable && !inFunction) then Nothing
    else Read(d.nameReads, tolerant, if d.name.Some? then [AddVariable(Entry(d.name.value, d))] else [])
  }

  function OwnEffects(d: Die, inFunction: bool, tolerant: bool): Walked {
    Then(FunctionEffects(d, tolerant), Then(MemberEffects(d, tolerant), VariableEffects(d, inFunction, tolerant)))
  }

  function Walk(d: Die, inFunction: bool, tolerant: bool): Walked
    decreases d, 1
  {
    Then(OwnEffects(d, inFunction, tolerant), WalkChildren(d.children, inFunction || IsFunction(d), tolerant))
  }

  function WalkChildren(ds: seq<Die>, inFunction: bool, tolerant: bool): Walked
    decreases ds, 0
  {
    if ds == [] then Nothing else
    Then(Read(ds[0].readable, tolerant, []),
         Then(Walk(ds[0], inFunction, tolerant),
              Then(Read(ds[0].passable, tolerant, []), WalkChildren(ds[1..], inFunction, tolerant))))
  }

  /** The roots of the compile units, one after the other. */
  function WalkUnits(ds: seq<Die>, tolerant: bool): Walked {
    if ds == [] then Nothing else
    Then(Read(ds[0].readable, tolerant, []), Then(Walk(ds[0], false, tolerant), WalkUnits(ds[1..], tolerant)))
  }

  function FunctionsIn(es: seq<Effect>): seq<Entry> {
    if es == [] then []
    else if es[0].AddFunction? then [es[0].entry] + FunctionsIn(es[1..])
    else FunctionsIn(es[1..])
  }

  function VariablesIn(es: seq<Effect>): seq<Entry> {
    if es == [] then []
    else if es[0].AddVariable? then [es[0].entry] + VariablesIn(es[1..])
    else VariablesIn(es[1..])
  }

  /** The functions of that name, in the order of the walk. */
  function FunctionsNamed(es: seq<Effect>, name: string): seq<Die> {
    if es == [] then []
    else if es[0].AddFunction? && es[0].entry.name == name then [es[0].entry.die] + FunctionsNamed(es[1..], name)
    else FunctionsNamed(es[1..], name)
  }

  /** What the first definition met for each declaration is; later ones do not replace it. */
  function Definitions(es: seq<Effect>, known: map<nat, Die>): map<nat, Die> {
    if es == [] then known else Definitions(es[1..], WithDefinition(es[0], known))
  }

  function WithDefinition(e: Effect, known: map<nat, Die>): map<nat, Die> {
    if e.AddMember? && e.position !in known then known[e.position := e.die] else known
  }

  lemma {:induction false} NamedAppend(a: seq<Effect>, b: seq<Effect>, name: string)
    ensures FunctionsNamed(a + b, name) == FunctionsNamed(a, name) + FunctionsNamed(b, name)
    decreases a
  {
    if a == [] {
      assert a + b == b;
    } else {
      assert (a + b)[1..] == a[1..] + b;
      NamedAppend(a[1..], b, name);
    }
  }

  lemma {:induction false} CountNamed(es: seq<Effect>, name: string, d: Die)
    ensures multiset(FunctionsIn(es))[Entry(name, d)] == multiset(FunctionsNamed(es, name))[d]
  {
    if es != [] {
      CountNamed(es[1..], name, d);
    }
  }

  lemma {:induction false} NoneNamed(es: seq<Effect>, name: string)
    ensures FunctionsIn(es) == [] ==> FunctionsNamed(es, name) == []
    ensures FunctionsIn(es) != [] && FunctionsIn(es)[0].name == name ==> FunctionsNamed(es, name) != []
  {
    if es != [] {
      NoneNamed(es[1..], name);
    }
  }

  // ---- a walk that stops is the beginning of one that does not ----

  /** a is how far the walk a' got. */
  predicate Begins(a: Walked, a': Walked) {
    a'.complete && a.effects <= a'.effects && (a.complete ==> a == a')
  }

  lemma ThenBegins(a: Walked, b: Walked, a': Walked, b': Walked)
    requires Begins(a, a') && Begins(b, b')
    ensures Begins(Then(a, b), Then(a', b'))
  {
  }

  lemma OwnBegins(d: Die, inFunction: bool)
    ensures Begins(OwnEffects(d, inFunction, false), OwnEffects(d, inFunction, true))
  {
    ThenBegins(MemberEffects(d, false), VariableEffects(d, inFunction, false),
               MemberEffects(d, true), VariableEffects(d, inFunction, true));
    ThenBegins(FunctionEffects(d, false), Then(MemberEffects(d, false), VariableEffects(d, inFunction, false)),
               FunctionEffects(d, true), Then(MemberEffects(d, true), VariableEffects(d, inFunction, true)));
  }

  lemma {:induction false} WalkBegins(d: Die, inFunction: bool)
    ensures Begins(Walk(d, inFunction, false), Walk(d, inFunction, true))
    decreases d, 1
  {
    var inside := inFunction || IsFunction(d);
    OwnBegins(d, inFunction);
    ChildrenBegin(d.children, inside);
    ThenBegins(OwnEffects(d, inFunction, false), WalkChildren(d.children, inside, false),
               OwnEffects(d, inFunction, true), WalkChildren(d.children, inside, true));
  }

  lemma {:induction false} ChildrenBegin(ds: seq<Die>, inFunction: bool)
    ensures Begins(WalkChildren(ds, inFunction, false), WalkChildren(ds, inFunction, true))
    decreases ds, 0
  {
    if ds != [] {
      var rest, rest' := WalkChildren(ds[1..], inFunction, false), WalkChildren(ds[1..], inFunction, true);
      var past, past' := Read(ds[0].passable, false, []), Read(ds[0].passable, true, []);
      var first, first' := Walk(ds[0], inFunction, false), Walk(ds[0], inFunction, true);
      WalkBegins(ds[0], inFunction);
      ChildrenBegin(ds[1..], inFunction);
      ThenBegins(past, rest, past', rest');
      ThenBegins(first, Then(past, rest), first', Then(past', rest'));
      ThenBegins(Read(ds[0].readable, false, []), Then(first, Then(past, rest)),
                 Read(ds[0].readable, true, []), Then(first', Then(past', rest')));
    }
  }

  lemma {:induction false} UnitsBegin(ds: seq<Die>)
    ensures Begins(WalkUnits(ds, false), WalkUnits(ds, true))
  {
    if ds != [] {
      var rest, rest' := WalkUnits(ds[1..], false), WalkUnits(ds[1..], true);
      var first, first' := Walk(ds[0], false, false), Walk(ds[0], false, true);
      WalkBegins(ds[0], false);
      UnitsBegin(ds[1..]);
      ThenBegins(first, rest, first', rest');
      ThenBegins(Read(ds[0].readable, false, []), Then(first, rest),
                 Read(ds[0].readable, true, []), Then(first', rest'));
    }
  }

  /** What the walk had not met when it stopped. */
  function Unmet(ds: seq<Die>): seq<Effect> {
    UnitsBegin(ds);
    WalkUnits(ds, true).effects[|WalkUnits(ds, false).effects|..]
  }

  /** Every answer for every name is complete. */
  ghost predicate CompleteAnswers(ds: seq<Die>) {
    forall name ::
      multiset(FunctionsNamed(WalkUnits(ds, false).effects, name)) == multiset(FunctionsNamed(WalkUnits(ds, true).effects, name))
  }

  /**
    What the walk met before it stopped holds, for every name, all functions of the
    forest if and only if no function was left unmet.
   */
  lemma CompleteIff(ds: seq<Die>)
    ensures CompleteAnswers(ds) <==> FunctionsIn(Unmet(ds)) == []
    ensures WalkUnits(ds, false).complete ==> Unmet(ds) == []
  {
    var met, all, unmet := WalkUnits(ds, false).effects, WalkUnits(ds, true).effects, Unmet(ds);
    UnitsBegin(ds);
    assert all == met + unmet;
    forall name ensures FunctionsNamed(all, name) == FunctionsNamed(met, name) + FunctionsNamed(unmet, name) {
      NamedAppend(met, unmet, name);
    }
    if FunctionsIn(unmet) == [] {
      forall name ensures FunctionsNamed(unmet, name) == [] {
        NoneNamed(unmet, name);
      }
    } else {
      var name := FunctionsIn(unmet)[0].name;
      NoneNamed(unmet, name);
      assert |FunctionsNamed(all, name)| > |FunctionsNamed(met, name)|;
      assert |multiset(FunctionsNamed(met, name))| == |FunctionsNamed(met, name)|;
      assert |multiset(FunctionsNamed(all, name))| == |FunctionsNamed(all, name)|;
    }
  }
}
