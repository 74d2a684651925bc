/**
  The lazily built index of functions and global variables in gsdb::dwarf.  An
  index entry is a position in .debug_info that is parsed again when it is
  looked up; the model keeps the entry itself.
 */
module FunctionIndex {
  import opened Options
  import opened IndexWalk
  import opened EntryPaths

  /** The contents of the three indexes. */
  datatype Contents = Contents(functions: multiset<Entry>, variables: multiset<Entry>, members: map<nat, Die>)

  function Apply(s: Contents, e: Effect): Contents {
    match e
    case AddFunction(entry) => s.(functions := s.functions + multiset{entry})
    case AddVariable(entry) => s.(variables := s.variables + multiset{entry})
    case AddMember(_, _) => s.(members := WithDefinition(e, s.members))
  }

  function ApplyAll(s: Contents, es: seq<Effect>): Contents
    decreases es
  {
    if es == [] then s else ApplyAll(Apply(s, es[0]), es[1..])
  }

  lemma {:induction false} ApplyAppend(s: Contents, a: seq<Effect>, b: seq<Effect>)
    ensures ApplyAll(s, a + b) == ApplyAll(ApplyAll(s, a), b)
    decreases a
  {
    if a == [] {
      assert a + b == b;
    } else {
      assert (a + b)[1..] == a[1..] + b;
      ApplyAppend(Apply(s, a[0]), a[1..], b);
    }
  }

  lemma {:induction false} Applied(s: Contents, es: seq<Effect>)
    ensures ApplyAll(s, es) == Contents(s.functions + multiset(FunctionsIn(es)), s.variables + multiset(VariablesIn(es)),
                                        Definitions(es, s.members))
    decreases es
  {
    if es != [] {
      Applied(Apply(s, es[0]), es[1..]);
    }
  }

  lemma ApplyThen(s: Contents, a: Walked, b: Walked)
    ensures ApplyAll(s, Then(a, b).effects) == if a.complete then ApplyAll(ApplyAll(s, a.effects), b.effects) else ApplyAll(s, a.effects)
  {
    ApplyAppend(s, a.effects, b.effects);
  }

  /** Definitions only ever adds. */
  lemma {:induction false} DefinitionsKeep(es: seq<Effect>, known: map<nat, Die>)
    ensures known.Keys <= Definitions(es, known).Keys
    ensures forall p | p in known :: Definitions(es, known)[p] == known[p]
    ensures forall k | 0 <= k < |es| && es[k].AddMember? :: es[k].position in Definitions(es, known)
    decreases es
  {
    if es != [] {
      DefinitionsKeep(es[1..], WithDefinition(es[0], known));
    }
  }

  /** Nothing is new once everything is known. */
  lemma {:induction false} NothingNew(es: seq<Effect>, known: map<nat, Die>)
    requires forall k | 0 <= k < |es| && es[k].AddMember? :: es[k].position in known
    ensures Definitions(es, known) == known
    decreases es
  {
    if es != [] {
      NothingNew(es[1..], known);
    }
  }

  function Times(m: multiset<Entry>, n: nat): multiset<Entry> {
    if n == 0 then multiset{} else Times(m, n - 1) + m
  }

  class Dwarf {
    const units: seq<Die>
    var functions: multiset<Entry>
    var variables: multiset<Entry>
    var members: map<nat, Die>
    /** How often index() has been called. */
    ghost var lookups: nat

    /** What indexing meets, and whether it gets to the end. */
    ghost function Met(): Walked {
      WalkUnits(units, false)
    }

    ghost function Now(): Contents
      reads this`functions, this`variables, this`members
    {
      Contents(functions, variables, members)
    }

    /**
      The function and member indexes are filled by the first lookup, as far as it
      gets, and never change again; the variable index is filled once if some
      function is indexed, and once more by every lookup if none is.
     */
    ghost predicate Valid()
      reads this`functions, this`variables, this`members, this`lookups
    {
      && functions == (if lookups == 0 then multiset{} else multiset(FunctionsIn(Met().effects)))
      && variables == Times(multiset(VariablesIn(Met().effects)), Fillings())
      && members == (if lookups == 0 then map[] else Definitions(Met().effects, map[]))
    }

    ghost function Fillings(): nat
      reads this`lookups
    {
      if FunctionsIn(Met().effects) == [] || lookups == 0 then lookups else 1
    }

    /** The next lookup throws. */
    ghost predicate WillThrow()
      reads this`lookups
    {
      !Met().complete && (lookups == 0 || FunctionsIn(Met().effects) == [])
    }

    constructor (units: seq<Die>)
      ensures Valid() && this.units == units && lookups == 0
    {
      this.units := units;
      functions, variables, members, lookups := multiset{}, multiset{}, map[], 0;
    }

    method IndexFunction(d: Die) returns (ok: bool)
      modifies this`functions
      ensures var w := FunctionEffects(d, false); ok == w.complete && Now() == ApplyAll(old(Now()), w.effects)
    {
      ok := true;
      if d.hasRange && IsFunction(d) {
        if !d.nameReads {
          return false;
        }
        if d.name.Some? {
          ApplyOne(Now(), AddFunction(Entry(d.name.value, d)));
          functions := functions + multiset{Entry(d.name.value, d)};
        }
      }
    }

    method IndexMember(d: Die) returns (ok: bool)
      modifies this`members
      ensures var w := MemberEffects(d, false); ok == w.complete && Now() == ApplyAll(old(Now()), w.effects)
    {
      ok := true;
      if IsFunction(d) && d.origin.Some? {
        if !d.originReads {
          return false;
        }
        ApplyOne(Now(), AddMember(d.origin.value, d));
        if d.origin.value !in members {
          members := members[d.origin.value := d];
        }
      }
    }

    method IndexVariable(d: Die, inFunction: bool) returns (ok: bool)
      modifies this`variables
      ensures var w := VariableEffects(d, inFunction, false); ok == w.complete && Now() == ApplyAll(old(Now()), w.effects)
    {
      ok := true;
      if d.hasLocation && d.tag == Variable && !inFunction {
        if !d.nameReads {
          return false;
        }
        if d.name.Some? {
          ApplyOne(Now(), AddVariable(Entry(d.name.value, d)));
          variables := variables + multiset{Entry(d.name.value, d)};
        }
      }
    }

    /** What index_die enters for the entry itself. */
    method IndexOwn(d: Die, inFunction: bool) returns (ok: bool)
      modifies this`functions, this`variables, this`members
      ensures var w := OwnEffects(d, inFunction, false); ok == w.complete && Now() == ApplyAll(old(Now()), w.effects)
    {
      ghost var f, m, v := FunctionEffects(d, false), MemberEffects(d, false), VariableEffects(d, inFunction, false);
      ApplyThen(Now(), f, Then(m, v));
      ApplyThen(ApplyAll(Now(), f.effects), m, v);
      ok := IndexFunction(d);
      if ok {
        ok := IndexMember(d);
      }
      if ok {
        ok := IndexVariable(d, inFunction);
      }
    }

    /** index_die; false where it throws. */
    method IndexDie(d: Die, inFunction: bool) returns (ok: bool)
      modifies this`functions, this`variables, this`members
      ensures var w := Walk(d, inFunction, false); ok == w.complete && Now() == ApplyAll(old(Now()), w.effects)
      decreases d, 1
    {
      ghost var inside := inFunction || IsFunction(d);
      ApplyThen(Now(), OwnEffects(d, inFunction, false), WalkChildren(d.children, inside, false));
      ok := IndexOwn(d, inFunction);
      if ok {
        ok := IndexChildren(d.children, inFunction || IsFunction(d));
      }
    }

    /** The loop over the children. */
    method IndexChildren(ds: seq<Die>, inFunction: bool) returns (ok: bool)
      modifies this`functions, this`variables, this`members
      ensures var w := WalkChildren(ds, inFunction, false); ok == w.complete && Now() == ApplyAll(old(Now()), w.effects)
      decreases ds, 0
    {
      ghost var all := WalkChildren(ds, inFunction, false);
      for i := 0 to |ds|
        invariant var rest := WalkChildren(ds[i..], inFunction, false);
                  rest.complete == all.complete && ApplyAll(Now(), rest.effects) == ApplyAll(old(Now()), all.effects)
      {
        var d := ds[i];
        ghost var rest := WalkChildren(ds[i + 1..], inFunction, false);
        assert ds[i..][0] == d && ds[i..][1..] == ds[i + 1..];
        OneChild(Now(), d, inFunction, rest);
        if !d.readable {
          return false;
        }
        ok := IndexDie(d, inFunction);
        if !ok || !d.passable {
          return false;
        }
      }
      ok := true;
    }

    /** The loop over the compile units. */
    method IndexUnits() returns (ok: bool)
      modifies this`functions, this`variables, this`members
      ensures ok == Met().complete && Now() == ApplyAll(old(Now()), Met().effects)
    {
      ghost var all := Met();
      for i := 0 to |units|
        invariant var rest := WalkUnits(units[i..], false);
                  rest.complete == all.complete && ApplyAll(Now(), rest.effects) == ApplyAll(old(Now()), all.effects)
      {
        var d := units[i];
        ghost var rest := WalkUnits(units[i + 1..], false);
        assert units[i..][0] == d && units[i..][1..] == units[i + 1..];
        OneUnit(Now(), d, rest);
        if !d.readable {
          return false;
        }
        ok := IndexDie(d, false);
        if !ok {
          return;
        }
      }
      ok := true;
    }

    /** index(): nothing if the function index holds anything. */
    method Index() returns (ok: bool)
      requires Valid()
      modifies this`functions, this`variables, this`members, this`lookups
      ensures Valid() && lookups == old(lookups) + 1 && ok == !old(WillThrow())
    {
      ghost var es := Met().effects;
      lookups := lookups + 1;
      if functions != multiset{} {
        return true;
      }
      DefinitionsKeep(es, map[]);
      NothingNew(es, Definitions(es, map[]));
      Applied(Now(), es);
      ok := IndexUnits();
    }

    /**
      find_functions.  It throws exactly if indexing does and has not left a
      function in the index before; otherwise it returns the functions of that name
      that indexing met, each once.  If everything can be read, or no function comes
      after what cannot, these are the entries of the forest at all paths to a
      function with code and that name.
     */
    method FindFunctions(name: string) returns (r: Option<seq<Die>>, ghost at: seq<Visit>)
      requires Valid()
      modifies this`functions, this`variables, this`members, this`lookups
      ensures Valid() && lookups == old(lookups) + 1
      ensures r.None? <==> old(WillThrow())
      ensures r.Some? ==> multiset(r.value) == multiset(FunctionsNamed(Met().effects, name))
      ensures InOrder(at) && forall v :: v in at <==> Stands(units, v) && IsNamedFunction(v) && HasName(v, name)
      ensures r.Some? && (FunctionsIn(Unmet(units)) == [] || (forall v | Stands(units, v) :: Fine(v))) ==>
                multiset(r.value) == multiset(DiesOf(at))
    {
      at := NamedByPath(units, name);
      CompleteIff(units);
      CompleteIffFine(units);
      r := None;
      var ok := Index();
      if !ok {
        return;
      }
      var found := WithKey(functions, name);
      forall d ensures multiset(found)[d] == multiset(FunctionsNamed(Met().effects, name))[d] {
        CountNamed(Met().effects, name, d);
      }
      r := Some(found);
    }

    /** find_global_variable: one of the variables of that name outside functions that indexing met, if there is one. */
    method FindGlobalVariable(name: string) returns (ok: bool, r: Option<Die>)
      requires Valid()
      modifies this`functions, this`variables, this`members, this`lookups
      ensures Valid() && lookups == old(lookups) + 1 && ok == !old(WillThrow())
      ensures ok ==> (r.Some? <==> exists d :: Entry(name, d) in VariablesIn(Met().effects))
      ensures ok && r.Some? ==> Entry(name, r.value) in VariablesIn(Met().effects)
      ensures ok && (forall v | Stands(units, v) :: Fine(v)) ==>
                if r.None? then forall d :: !GlobalAt(units, name, d) else GlobalAt(units, name, r.value)
    {
      GlobalsByPath(units, name);
      r := None;
      ok := Index();
      if !ok {
        return;
      }
      TimesContains(multiset(VariablesIn(Met().effects)), Fillings());
      if e :| e in variables && e.name == name {
        r := Some(e.die);
      } else {
        assert forall d :: Entry(name, d) !in variables;
      }
    }
  }

  lemma ApplyOne(s: Contents, e: Effect)
    ensures ApplyAll(s, [e]) == Apply(s, e)
  {
    assert [e][1..] == [];
  }

  /** One round of the loop over the children. */
  lemma OneChild(s: Contents, d: Die, inFunction: bool, rest: Walked)
    ensures var first := Walk(d, inFunction, false);
            var w := Then(Read(d.readable, false, []), Then(first, Then(Read(d.passable, false, []), rest)));
            && ApplyAll(s, w.effects) ==
               (if !d.readable then s
                else if first.complete && d.passable then ApplyAll(ApplyAll(s, first.effects), rest.effects)
                else ApplyAll(s, first.effects))
            && w.complete == (d.readable && first.complete && d.passable && rest.complete)
  {
    var first, past := Walk(d, inFunction, false), Read(d.passable, false, []);
    ApplyThen(s, Read(d.readable, false, []), Then(first, Then(past, rest)));
    ApplyThen(s, first, Then(past, rest));
    ApplyThen(ApplyAll(s, first.effects), past, rest);
  }

  lemma OneUnit(s: Contents, d: Die, rest: Walked)
    ensures var first := Walk(d, false, false);
            var w := Then(Read(d.readable, false, []), Then(first, rest));
            && ApplyAll(s, w.effects) ==
               (if !d.readable then s
                else if first.complete then ApplyAll(ApplyAll(s, first.effects), rest.effects)
                else ApplyAll(s, first.effects))
            && w.complete == (d.readable && first.complete && rest.complete)
  {
    var first := Walk(d, false, false);
    ApplyThen(s, Read(d.readable, false, []), Then(first, rest));
    ApplyThen(s, first, rest);
  }

  /** equal_range: the entries with a key, in any order. */
  method WithKey(all: multiset<Entry>, name: string) returns (found: seq<Die>)
    ensures forall d :: multiset(found)[d] == all[Entry(name, d)]
  {
    var rest := all;
    found := [];
    while rest != multiset{}
      invariant rest <= all
      invariant forall d :: multiset(found)[d] == all[Entry(name, d)] - rest[Entry(name, d)]
      decreases |rest|
    {
      var e :| e in rest;
      rest := rest - multiset{e};
      if e.name == name {
        found := found + [e.die];
      }
    }
  }

  lemma {:induction false} TimesContains(m: multiset<Entry>, n: nat)
    ensures forall e :: e in Times(m, n) <==> n > 0 && e in m
  {
    if n > 0 {
      TimesContains(m, n - 1);
    }
  }

  /**
    Whatever lookups have come before, each one that returns returns all functions
    of its name, if and only if indexing never leaves a function unmet, or never
    meets one, in which case every lookup throws again.
   */
  lemma AnswersCompleteIff(dwarf: Dwarf)
    requires dwarf.Valid() && dwarf.lookups > 0
    ensures (!dwarf.WillThrow() ==> CompleteAnswers(dwarf.units)) <==>
            FunctionsIn(Unmet(dwarf.units)) == [] || FunctionsIn(dwarf.Met().effects) == []
  {
    CompleteIff(dwarf.units);
  }

  /**
    The variable index holds every entry that indexing meets exactly once after any
    number of lookups, if and only if some function is indexed, or there was at most
    one lookup, or there are no variables.
   */
  lemma VariablesOnceIff(dwarf: Dwarf)
    requires dwarf.Valid() && dwarf.lookups > 0
    ensures dwarf.variables == multiset(VariablesIn(dwarf.Met().effects)) <==>
            FunctionsIn(dwarf.Met().effects) != [] || dwarf.lookups == 1 || VariablesIn(dwarf.Met().effects) == []
  {
    var vs := VariablesIn(dwarf.Met().effects);
    if vs == [] {
      EmptyTimes(dwarf.Fillings());
    } else {
      TimesCount(multiset(vs), vs[0], dwarf.Fillings());
      assert vs[0] in multiset(vs);
    }
  }

  lemma {:induction false} TimesCount(m: multiset<Entry>, e: Entry, n: nat)
    requires n > 0 && e in m
    ensures n == 1 ==> Times(m, n) == m
    ensures n > 1 ==> Times(m, n)[e] > m[e]
  {
    if n == 1 {
      assert Times(m, n - 1) == multiset{};
    } else {
      TimesCount(m, e, n - 1);
    }
  }

  lemma {:induction false} EmptyTimes(n: nat)
    ensures Times(multiset([]), n) == multiset([])
  {
    if n > 0 {
      EmptyTimes(n - 1);
    }
  }

  // ---- inputs on which lookups go wrong ----

  function Leaf(tag: Tag, name: string, readable: bool): Die {
    Die(tag, IsCode(tag), tag == Variable, Some(name), true, None, true, readable, true, [])
  }

  lemma LeafEffects(d: Die, tag: Tag, name: string, tolerant: bool)
    requires (tag == Subprogram || tag == Variable) && d == Leaf(tag, name, d.readable)
    ensures Walk(d, false, tolerant)
            == Walked([if tag == Subprogram then AddFunction(Entry(name, d)) else AddVariable(Entry(name, d))], true)
  {
  }

  /** One variable and no function: the second lookup indexes the variable again. */
  method VariableIndexedTwice() returns (dwarf: Dwarf, variable: Entry)
    ensures dwarf.Valid() && dwarf.lookups == 2
    ensures FunctionsIn(dwarf.Met().effects) == [] && VariablesIn(dwarf.Met().effects) == [variable]
    ensures dwarf.variables == multiset{variable, variable}
  {
    var die := Leaf(Variable, "x", true);
    variable := Entry("x", die);
    OneVariable(die, "x");
    dwarf := LookUpTwice([die]);
    assert multiset([variable]) == multiset{variable};
    TwoTimes(multiset{variable});
  }

  method LookUpTwice(units: seq<Die>) returns (dwarf: Dwarf)
    ensures fresh(dwarf) && dwarf.Valid() && dwarf.units == units && dwarf.lookups == 2
  {
    dwarf := new Dwarf(units);
    var _ := dwarf.Index();
    var _ := dwarf.Index();
  }

  lemma OneVariable(d: Die, name: string)
    requires d == Leaf(Variable, name, true)
    ensures FunctionsIn(WalkUnits([d], false).effects) == []
    ensures VariablesIn(WalkUnits([d], false).effects) == [Entry(name, d)]
  {
    var e := AddVariable(Entry(name, d));
    LeafEffects(d, Variable, name, false);
    assert [d][1..] == [] && WalkUnits([], false) == Nothing;
    assert WalkUnits([d], false) == Walked([e], true) && [e][1..] == [];
  }

  lemma TwoTimes(m: multiset<Entry>)
    ensures Times(m, 2) == m + m
  {
    assert Times(m, 1) == Times(m, 0) + m;
  }

  /**
    Two compile units, one function each, the second unreadable: the first lookup
    throws, and the second one says that there is no such function.
   */
  method PartialIndexIsKept() returns (dwarf: Dwarf, first: Option<seq<Die>>, second: Option<seq<Die>>)
    ensures first == None && second == Some([])
    ensures FunctionsNamed(WalkUnits(dwarf.units, true).effects, "g") == [Leaf(Subprogram, "g", false)]
  {
    var f, g := Leaf(Subprogram, "f", true), Leaf(Subprogram, "g", false);
    TwoUnits(f, g);
    dwarf := new Dwarf([f, g]);
    ghost var at;
    first, at := dwarf.FindFunctions("g");
    second, at := dwarf.FindFunctions("g");
    assert |multiset(second.value)| == |second.value|;
  }

  lemma TwoUnits(f: Die, g: Die)
    requires f == Leaf(Subprogram, "f", true) && g == Leaf(Subprogram, "g", false)
    ensures WalkUnits([f, g], false) == Walked([AddFunction(Entry("f", f))], false)
    ensures FunctionsIn(WalkUnits([f, g], false).effects) != []
    ensures FunctionsNamed(WalkUnits([f, g], false).effects, "g") == []
    ensures FunctionsNamed(WalkUnits([f, g], true).effects, "g") == [g]
  {
    assert [f, g][1..] == [g];
    LeafEffects(f, Subprogram, "f", false);
    LeafEffects(f, Subprogram, "f", true);
    LastUnit(g);
    var ef, eg := AddFunction(Entry("f", f)), AddFunction(Entry("g", g));
    TwoEffects(ef, eg);
    assert WalkUnits([f, g], true) == Walked([] + ([ef] + [eg]), true);
    assert [] + ([ef] + [eg]) == [ef, eg];
  }

  lemma LastUnit(g: Die)
    requires g == Leaf(Subprogram, "g", false)
    ensures WalkUnits([g], true) == Walked([AddFunction(Entry("g", g))], true)
    ensures WalkUnits([g], false) == Walked([], false)
  {
    LeafEffects(g, Subprogram, "g", true);
    assert [g][1..] == [] && WalkUnits([], true) == Nothing;
  }

  lemma TwoEffects(e: Effect, e': Effect)
    requires e.AddFunction? && e'.AddFunction? && e.entry.name == "f" && e'.entry.name == "g"
    ensures FunctionsIn([e]) == [e.entry] && FunctionsNamed([e], "g") == []
    ensures [e] + [e'] == [e, e'] && FunctionsNamed([e, e'], "g") == [e'.entry.die]
  {
    assert "f"[0] != "g"[0];
    assert [e][1..] == [] && [e, e'][1..] == [e'] && [e'][1..] == [];
    assert FunctionsNamed([e'], "g") == [e'.entry.die];
  }
}
