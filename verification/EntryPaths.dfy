/**
  The entries of a forest by the paths that lead to them, child index after child
  index, in preorder; and what each of them is to contribute to the indexes.
 */
module EntryPaths {
  import opened Options
  import opened IndexWalk

  /** The index of a compile unit, then of a child of its root, and so on. */
  type Path = seq<nat>

  function NodeAt(ds: seq<Die>, p: Path): Option<Die>
    decreases p
  {
    if p == [] || p[0] >= |ds| then None
    else if |p| == 1 then Some(ds[p[0]])
    else NodeAt(ds[p[0]].children, p[1..])
  }

  predicate HasFunction(ds: seq<Die>, p: Path) {
    NodeAt(ds, p).Some? && (NodeAt(ds, p).value.tag == Subprogram || NodeAt(ds, p).value.tag == InlinedSubroutine)
  }

  /** An entry above the one at p is a function. */
  ghost predicate Inside(ds: seq<Die>, p: Path) {
    exists k | 0 < k < |p| :: HasFunction(ds, p[..k])
  }

  /** Preorder: an entry comes before those below it, and before those below later siblings. */
  predicate Before(p: Path, q: Path)
    decreases p
  {
    if q == [] then false else if p == [] then true
    else if p[0] != q[0] then p[0] < q[0] else Before(p[1..], q[1..])
  }

  datatype Visit = Visit(path: Path, die: Die, inside: bool)

  ghost predicate Stands(ds: seq<Die>, v: Visit) {
    NodeAt(ds, v.path) == Some(v.die) && v.inside == Inside(ds, v.path)
  }

  predicate InOrder(vs: seq<Visit>) {
    forall i, j | 0 <= i < j < |vs| :: Before(vs[i].path, vs[j].path)
  }

  // ---- the visits of a walk ----

  function VisitsFrom(ds: seq<Die>, i: nat, prefix: Path, inside: bool): seq<Visit>
    requires i <= |ds|
    decreases ds, |ds| - i
  {
    if i == |ds| then []
    else VisitsOf(ds[i], prefix + [i], inside) + VisitsFrom(ds, i + 1, prefix, inside)
  }

  function VisitsOf(d: Die, path: Path, inside: bool): seq<Visit>
    decreases d, 0
  {
    [Visit(path, d, inside)] + VisitsFrom(d.children, 0, path, inside || IsFunction(d))
  }

  function Own(v: Visit): seq<Effect> {
    OwnEffects(v.die, v.inside, true).effects
  }

  function Collected(vs: seq<Visit>): seq<Effect> {
    if vs == [] then [] else Own(vs[0]) + Collected(vs[1..])
  }

  lemma {:induction false} CollectedAppend(a: seq<Visit>, b: seq<Visit>)
    ensures Collected(a + b) == Collected(a) + Collected(b)
    decreases a
  {
    if a == [] {
      assert a + b == b;
    } else {
      assert (a + b)[1..] == a[1..] + b;
      CollectedAppend(a[1..], b);
    }
  }

  lemma {:induction false} WalkVisits(d: Die, path: Path, inside: bool)
    ensures Walk(d, inside, true) == Walked(Collected(VisitsOf(d, path, inside)), true)
    decreases d, 0
  {
    var v, below := Visit(path, d, inside), VisitsFrom(d.children, 0, path, inside || IsFunction(d));
    ChildrenVisits(d.children, 0, path, inside || IsFunction(d));
    assert d.children[0..] == d.children;
    assert ([v] + below)[1..] == below;
  }

  lemma TolerantChild(ds: seq<Die>, inside: bool)
    requires ds != [] && Walk(ds[0], inside, true).complete && WalkChildren(ds[1..], inside, true).complete
    ensures WalkChildren(ds, inside, true)
            == Walked(Walk(ds[0], inside, true).effects + WalkChildren(ds[1..], inside, true).effects, true)
  {
  }

  lemma {:induction false} ChildrenVisits(ds: seq<Die>, i: nat, prefix: Path, inside: bool)
    requires i <= |ds|
    ensures WalkChildren(ds[i..], inside, true) == Walked(Collected(VisitsFrom(ds, i, prefix, inside)), true)
    decreases ds, |ds| - i
  {
    if i < |ds| {
      WalkVisits(ds[i], prefix + [i], inside);
      ChildrenVisits(ds, i + 1, prefix, inside);
      assert ds[i..][0] == ds[i] && ds[i..][1..] == ds[i + 1..];
      TolerantChild(ds[i..], inside);
      CollectedAppend(VisitsOf(ds[i], prefix + [i], inside), VisitsFrom(ds, i + 1, prefix, inside));
    }
  }

  lemma {:induction false} UnitVisits(ds: seq<Die>, i: nat)
    requires i <= |ds|
    ensures WalkUnits(ds[i..], true) == Walked(Collected(VisitsFrom(ds, i, [], false)), true)
    decreases |ds| - i
  {
    if i < |ds| {
      WalkVisits(ds[i], [] + [i], false);
      UnitVisits(ds, i + 1);
      assert ds[i..][0] == ds[i] && ds[i..][1..] == ds[i + 1..];
      CollectedAppend(VisitsOf(ds[i], [] + [i], false), VisitsFrom(ds, i + 1, [], false));
    }
  }

  // ---- they are the entries of the forest, each once ----

  /** The entry at q below ds, with what is above it. */
  predicate Leads(ds: seq<Die>, q: Path, inside: bool, d: Die, f: bool)
    decreases q
  {
    && q != [] && q[0] < |ds|
    && if |q| == 1 then d == ds[q[0]] && f == inside
       else Leads(ds[q[0]].children, q[1..], inside || IsFunction(ds[q[0]]), d, f)
  }

  /** The visit is of an entry below ds, not before its child i. */
  predicate Below(ds: seq<Die>, i: nat, prefix: Path, inside: bool, v: Visit) {
    && prefix <= v.path && |v.path| > |prefix| && v.path[|prefix|] >= i
    && Leads(ds, v.path[|prefix|..], inside, v.die, v.inside)
  }

  /** The visit is of d or of an entry below it. */
  predicate AtOrBelow(d: Die, path: Path, inside: bool, v: Visit) {
    v == Visit(path, d, inside) || Below(d.children, 0, path, inside || IsFunction(d), v)
  }

  lemma {:induction false} VisitsOfIff(d: Die, path: Path, inside: bool, v: Visit)
    ensures v in VisitsOf(d, path, inside) <==> AtOrBelow(d, path, inside, v)
    decreases d, 0
  {
    VisitsFromIff(d.children, 0, path, inside || IsFunction(d), v);
  }

  lemma {:induction false} VisitsFromIff(ds: seq<Die>, i: nat, prefix: Path, inside: bool, v: Visit)
    requires i <= |ds|
    ensures v in VisitsFrom(ds, i, prefix, inside) <==> Below(ds, i, prefix, inside, v)
    decreases ds, |ds| - i
  {
    if i < |ds| {
      VisitsOfIff(ds[i], prefix + [i], inside, v);
      VisitsFromIff(ds, i + 1, prefix, inside, v);
      BelowSplit(ds, i, prefix, inside, v);
    }
  }

  lemma BelowSplit(ds: seq<Die>, i: nat, prefix: Path, inside: bool, v: Visit)
    requires i < |ds|
    ensures Below(ds, i, prefix, inside, v) <==>
            AtOrBelow(ds[i], prefix + [i], inside, v) || Below(ds, i + 1, prefix, inside, v)
  {
    var n, path := |prefix|, prefix + [i];
    if prefix <= v.path && |v.path| > n && v.path[n] == i {
      assert path <= v.path;
      assert v.path[n..][1..] == v.path[n + 1..];
      assert |v.path| == n + 1 ==> v.path == path;
    }
  }

  /** NodeAt and Inside say the same, entry by entry. */
  lemma {:induction false} LeadsIff(ds: seq<Die>, q: Path, inside: bool, d: Die, f: bool)
    ensures Leads(ds, q, inside, d, f) <==> NodeAt(ds, q) == Some(d) && f == (inside || Inside(ds, q))
    decreases q
  {
    if q != [] && q[0] < |ds| && |q| > 1 {
      LeadsIff(ds[q[0]].children, q[1..], inside || IsFunction(ds[q[0]]), d, f);
      InsideSplit(ds, q);
    }
  }

  lemma InsideSplit(ds: seq<Die>, q: Path)
    requires |q| > 1 && q[0] < |ds|
    ensures Inside(ds, q) <==> IsFunction(ds[q[0]]) || Inside(ds[q[0]].children, q[1..])
  {
    assert forall k | 1 < k < |q| :: q[..k][1..] == q[1..][..k - 1] && q[..k][0] == q[0];
    assert q[..1][0] == q[0];
    if Inside(ds, q) {
      var k :| 0 < k < |q| && HasFunction(ds, q[..k]);
      if k > 1 {
        assert HasFunction(ds[q[0]].children, q[1..][..k - 1]);
      }
    }
    if IsFunction(ds[q[0]]) {
      assert HasFunction(ds, q[..1]);
    }
    if Inside(ds[q[0]].children, q[1..]) {
      var k :| 0 < k < |q| - 1 && HasFunction(ds[q[0]].children, q[1..][..k]);
      assert HasFunction(ds, q[..k + 1]);
    }
  }

  lemma {:induction false} BeforeAfterPrefix(prefix: Path, p: Path, q: Path)
    requires prefix <= p && prefix <= q
    ensures Before(p, q) <==> Before(p[|prefix|..], q[|prefix|..])
    decreases prefix
  {
    if prefix != [] {
      BeforeAfterPrefix(prefix[1..], p[1..], q[1..]);
      assert p[1..][|prefix| - 1..] == p[|prefix|..] && q[1..][|prefix| - 1..] == q[|prefix|..];
    } else {
      assert p[0..] == p && q[0..] == q;
    }
  }

  lemma {:induction false} OfInOrder(d: Die, path: Path, inside: bool)
    ensures InOrder(VisitsOf(d, path, inside))
    decreases d, 0
  {
    var below := VisitsFrom(d.children, 0, path, inside || IsFunction(d));
    FromInOrder(d.children, 0, path, inside || IsFunction(d));
    forall k | 0 <= k < |below| ensures Before(path, below[k].path) {
      VisitsFromIff(d.children, 0, path, inside || IsFunction(d), below[k]);
      BeforeAfterPrefix(path, path, below[k].path);
    }
  }

  lemma {:induction false} FromInOrder(ds: seq<Die>, i: nat, prefix: Path, inside: bool)
    requires i <= |ds|
    ensures InOrder(VisitsFrom(ds, i, prefix, inside))
    decreases ds, |ds| - i
  {
    if i < |ds| {
      var a, b := VisitsOf(ds[i], prefix + [i], inside), VisitsFrom(ds, i + 1, prefix, inside);
      OfInOrder(ds[i], prefix + [i], inside);
      FromInOrder(ds, i + 1, prefix, inside);
      forall j, k | 0 <= j < |a| && 0 <= k < |b| ensures Before(a[j].path, b[k].path) {
        VisitsOfIff(ds[i], prefix + [i], inside, a[j]);
        VisitsFromIff(ds, i + 1, prefix, inside, b[k]);
        BeforeAfterPrefix(prefix, a[j].path, b[k].path);
      }
      JoinInOrder(a, b);
    }
  }

  lemma JoinInOrder(a: seq<Visit>, b: seq<Visit>)
    requires InOrder(a) && InOrder(b)
    requires forall j, k | 0 <= j < |a| && 0 <= k < |b| :: Before(a[j].path, b[k].path)
    ensures InOrder(a + b)
  {
  }

  /** All entries of the forest, each once, in preorder. */
  lemma EveryEntryOnce(ds: seq<Die>) returns (vs: seq<Visit>)
    ensures InOrder(vs) && (forall v :: v in vs <==> Stands(ds, v))
    ensures WalkUnits(ds, true) == Walked(Collected(vs), true)
  {
    vs := VisitsFrom(ds, 0, [], false);
    FromInOrder(ds, 0, [], false);
    UnitVisits(ds, 0);
    assert ds[0..] == ds;
    forall v ensures v in vs <==> Stands(ds, v) {
      VisitsFromIff(ds, 0, [], false, v);
      LeadsIff(ds, v.path, false, v.die, v.inside);
      assert v.path[0..] == v.path;
    }
  }

  // ---- the indexes ----

  function Select(vs: seq<Visit>, want: Visit -> bool): (r: seq<Visit>)
    ensures forall v :: v in r <==> v in vs && want(v)
  {
    if vs == [] then [] else if want(vs[0]) then [vs[0]] + Select(vs[1..], want) else Select(vs[1..], want)
  }

  lemma {:induction false} SelectInOrder(vs: seq<Visit>, want: Visit -> bool)
    requires InOrder(vs)
    ensures InOrder(Select(vs, want))
  {
    if vs != [] {
      SelectInOrder(vs[1..], want);
      var rest := Select(vs[1..], want);
      forall k | 0 <= k < |rest| ensures Before(vs[0].path, rest[k].path) {
        assert rest[k] in vs[1..];
        var j :| 0 <= j < |vs| - 1 && vs[1..][j] == rest[k];
        assert vs[j + 1] == rest[k];
      }
    }
  }

  /** A function with code and a name. */
  predicate IsNamedFunction(v: Visit) {
    (v.die.tag == Subprogram || v.die.tag == InlinedSubroutine) && v.die.hasRange && v.die.name.Some?
  }

  /** A variable with a location and a name that is in no function. */
  predicate IsGlobal(v: Visit) {
    v.die.tag == Variable && v.die.hasLocation && v.die.name.Some? && !v.inside
  }

  /** A function that refers to the declaration at this position. */
  predicate IsDefinition(v: Visit, position: nat) {
    (v.die.tag == Subprogram || v.die.tag == InlinedSubroutine) && v.die.origin == Some(position)
  }

  predicate HasName(v: Visit, name: string) {
    v.die.name == Some(name)
  }

  function EntryOf(v: Visit): Entry {
    Entry(if v.die.name.Some? then v.die.name.value else "", v.die)
  }

  function EntriesOf(vs: seq<Visit>): (r: seq<Entry>)
    ensures |r| == |vs| && forall k | 0 <= k < |vs| :: r[k] == EntryOf(vs[k])
  {
    seq(|vs|, k requires 0 <= k < |vs| => EntryOf(vs[k]))
  }

  function DiesOf(vs: seq<Visit>): (r: seq<Die>)
    ensures |r| == |vs| && forall k | 0 <= k < |vs| :: r[k] == vs[k].die
  {
    seq(|vs|, k requires 0 <= k < |vs| => vs[k].die)
  }

  lemma OwnFunctions(v: Visit)
    ensures FunctionsIn(Own(v)) == if IsNamedFunction(v) then [EntryOf(v)] else []
    ensures VariablesIn(Own(v)) == if IsGlobal(v) then [EntryOf(v)] else []
  {
    var f, m := FunctionEffects(v.die, true).effects, MemberEffects(v.die, true).effects;
    var x := VariableEffects(v.die, v.inside, true).effects;
    assert Own(v) == f + (m + x);
    InAppend(f, m + x);
    InAppend(m, x);
    OneEffect(f);
    OneEffect(m);
    OneEffect(x);
  }

  lemma OneEffect(es: seq<Effect>)
    requires |es| <= 1
    ensures FunctionsIn(es) == if es != [] && es[0].AddFunction? then [es[0].entry] else []
    ensures VariablesIn(es) == if es != [] && es[0].AddVariable? then [es[0].entry] else []
  {
    if es != [] {
      assert es[1..] == [];
    }
  }

  lemma {:induction false} InAppend(a: seq<Effect>, b: seq<Effect>)
    ensures FunctionsIn(a + b) == FunctionsIn(a) + FunctionsIn(b)
    ensures VariablesIn(a + b) == VariablesIn(a) + VariablesIn(b)
    decreases a
  {
    if a == [] {
      assert a + b == b;
    } else {
      assert (a + b)[1..] == a[1..] + b;
      InAppend(a[1..], b);
    }
  }

  lemma {:induction false} CollectedFunctions(vs: seq<Visit>)
    ensures FunctionsIn(Collected(vs)) == EntriesOf(Select(vs, IsNamedFunction))
  {
    if vs != [] {
      CollectedFunctions(vs[1..]);
      OwnFunctions(vs[0]);
      InAppend(Own(vs[0]), Collected(vs[1..]));
    }
  }

  lemma {:induction false} CollectedVariables(vs: seq<Visit>)
    ensures VariablesIn(Collected(vs)) == EntriesOf(Select(vs, IsGlobal))
  {
    if vs != [] {
      CollectedVariables(vs[1..]);
      OwnFunctions(vs[0]);
      InAppend(Own(vs[0]), Collected(vs[1..]));
    }
  }

  /** The function index holds, in preorder and each once, exactly the functions with code and a name. */
  lemma FunctionsByPath(ds: seq<Die>) returns (vs: seq<Visit>)
    ensures InOrder(vs) && (forall v :: v in vs <==> Stands(ds, v) && IsNamedFunction(v))
    ensures FunctionsIn(WalkUnits(ds, true).effects) == EntriesOf(vs)
  {
    var all := EveryEntryOnce(ds);
    vs := Select(all, IsNamedFunction);
    SelectInOrder(all, IsNamedFunction);
    CollectedFunctions(all);
  }

  /** The variable index likewise holds exactly the variables with a location and a name outside of functions. */
  lemma VariablesByPath(ds: seq<Die>) returns (vs: seq<Visit>)
    ensures InOrder(vs) && (forall v :: v in vs <==> Stands(ds, v) && IsGlobal(v))
    ensures VariablesIn(WalkUnits(ds, true).effects) == EntriesOf(vs)
  {
    var all := EveryEntryOnce(ds);
    vs := Select(all, IsGlobal);
    SelectInOrder(all, IsGlobal);
    CollectedVariables(all);
  }

  lemma {:induction false} NamedOfFunctions(es: seq<Effect>, vs: seq<Visit>, name: string)
    requires FunctionsIn(es) == EntriesOf(vs) && forall v | v in vs :: IsNamedFunction(v)
    ensures FunctionsNamed(es, name) == DiesOf(Select(vs, v => HasName(v, name)))
    decreases es
  {
    if es == [] {
      assert vs == [];
    } else if es[0].AddFunction? {
      assert FunctionsIn(es)[0] == EntryOf(vs[0]) && FunctionsIn(es)[1..] == EntriesOf(vs[1..]);
      assert vs[0] in vs;
      NamedOfFunctions(es[1..], vs[1..], name);
    } else {
      NamedOfFunctions(es[1..], vs, name);
    }
  }

  /** Those of one name. */
  lemma NamedByPath(ds: seq<Die>, name: string) returns (vs: seq<Visit>)
    ensures InOrder(vs) && (forall v :: v in vs <==> Stands(ds, v) && IsNamedFunction(v) && HasName(v, name))
    ensures FunctionsNamed(WalkUnits(ds, true).effects, name) == DiesOf(vs)
  {
    var all := FunctionsByPath(ds);
    vs := Select(all, v => HasName(v, name));
    SelectInOrder(all, v => HasName(v, name));
    NamedOfFunctions(WalkUnits(ds, true).effects, all, name);
  }

  function LookUp(m: map<nat, Die>, q: nat): Option<Die> {
    if q in m then Some(m[q]) else None
  }

  function FirstDefinition(vs: seq<Visit>, q: nat): Option<Die> {
    if vs == [] then None else if IsDefinition(vs[0], q) then Some(vs[0].die) else FirstDefinition(vs[1..], q)
  }

  lemma {:induction false} DefinitionsAppend(a: seq<Effect>, b: seq<Effect>, known: map<nat, Die>)
    ensures Definitions(a + b, known) == Definitions(b, Definitions(a, known))
    decreases a
  {
    if a == [] {
      assert a + b == b;
    } else {
      assert (a + b)[1..] == a[1..] + b;
      DefinitionsAppend(a[1..], b, WithDefinition(a[0], known));
    }
  }

  lemma OwnDefinition(v: Visit, known: map<nat, Die>, q: nat)
    ensures LookUp(Definitions(Own(v), known), q) ==
            if q in known then Some(known[q]) else if IsDefinition(v, q) then Some(v.die) else None
  {
    var f, m := FunctionEffects(v.die, true).effects, MemberEffects(v.die, true).effects;
    var x := VariableEffects(v.die, v.inside, true).effects;
    assert Own(v) == f + (m + x);
    DefinitionsAppend(f, m + x, known);
    DefinitionsAppend(m, x, known);
    NoDefinition(f, known);
    OneDefinition(m, known);
    NoDefinition(x, Definitions(m, known));
  }

  lemma NoDefinition(es: seq<Effect>, known: map<nat, Die>)
    requires |es| <= 1 && (es != [] ==> !es[0].AddMember?)
    ensures Definitions(es, known) == known
  {
    if es != [] {
      assert es[1..] == [];
    }
  }

  lemma OneDefinition(es: seq<Effect>, known: map<nat, Die>)
    requires |es| <= 1
    ensures Definitions(es, known) == if es == [] then known else WithDefinition(es[0], known)
  {
    if es != [] {
      assert es[1..] == [];
    }
  }

  lemma {:induction false} CollectedDefinitions(vs: seq<Visit>, known: map<nat, Die>, q: nat)
    ensures LookUp(Definitions(Collected(vs), known), q) == if q in known then Some(known[q]) else FirstDefinition(vs, q)
    decreases vs
  {
    if vs != [] {
      var then_ := Definitions(Own(vs[0]), known);
      DefinitionsAppend(Own(vs[0]), Collected(vs[1..]), known);
      OwnDefinition(vs[0], known, q);
      CollectedDefinitions(vs[1..], then_, q);
    }
  }

  /** v is the first in the list that defines q. */
  lemma {:induction false} FirstComesFirst(vs: seq<Visit>, q: nat) returns (v: Visit)
    requires InOrder(vs) && FirstDefinition(vs, q).Some?
    ensures v in vs && IsDefinition(v, q) && FirstDefinition(vs, q) == Some(v.die)
    ensures forall u | u in vs && IsDefinition(u, q) :: u == v || Before(v.path, u.path)
  {
    if IsDefinition(vs[0], q) {
      v := vs[0];
      forall u | u in vs && u != v ensures Before(v.path, u.path) {
        var j :| 0 <= j < |vs| && vs[j] == u;
      }
    } else {
      v := FirstComesFirst(vs[1..], q);
    }
  }

  lemma {:induction false} NoneDefines(vs: seq<Visit>, q: nat)
    ensures FirstDefinition(vs, q).None? <==> forall v | v in vs :: !IsDefinition(v, q)
  {
    if vs != [] {
      NoneDefines(vs[1..], q);
    }
  }

  ghost predicate IsFirstDefinition(ds: seq<Die>, v: Visit, q: nat) {
    && Stands(ds, v) && IsDefinition(v, q)
    && forall u | Stands(ds, u) && IsDefinition(u, q) :: u == v || Before(v.path, u.path)
  }

  /** The member index maps a declaration exactly if a function refers to it, and then to the first one in preorder. */
  lemma DefinitionsByPath(ds: seq<Die>, q: nat)
    ensures var r := LookUp(Definitions(WalkUnits(ds, true).effects, map[]), q);
            && (r.None? <==> forall v | Stands(ds, v) :: !IsDefinition(v, q))
            && (r.Some? ==> exists v: Visit :: IsFirstDefinition(ds, v, q) && r.value == v.die)
  {
    var vs := EveryEntryOnce(ds);
    CollectedDefinitions(vs, map[], q);
    NoneDefines(vs, q);
    if FirstDefinition(vs, q).Some? {
      var v := FirstComesFirst(vs, q);
      assert IsFirstDefinition(ds, v, q);
    }
  }

  // ---- where the walk stops ----

  /** Everything that indexing reads of the entry can be read, and the iterator gets past it if it is a child. */
  predicate Fine(v: Visit) {
    var d := v.die;
    var function_ := d.tag == Subprogram || d.tag == InlinedSubroutine;
    && d.readable && (|v.path| > 1 ==> d.passable)
    && (function_ && d.hasRange ==> d.nameReads)
    && (function_ && d.origin.Some? ==> d.originReads)
    && (d.tag == Variable && d.hasLocation && !v.inside ==> d.nameReads)
  }

  ghost predicate AllFine(vs: seq<Visit>) {
    forall v | v in vs :: Fine(v)
  }

  lemma FineAppend(a: seq<Visit>, b: seq<Visit>)
    ensures AllFine(a + b) <==> AllFine(a) && AllFine(b)
  {
    assert forall v :: v in a + b <==> v in a || v in b;
  }

  /** What is checked of the entry but its own reading. */
  lemma OwnFine(d: Die, inside: bool, path: Path)
    requires d.readable && (|path| > 1 ==> d.passable)
    ensures OwnEffects(d, inside, false).complete <==> Fine(Visit(path, d, inside))
  {
  }

  lemma {:induction false} WalkFine(d: Die, path: Path, inside: bool)
    requires path != []
    ensures d.readable && Walk(d, inside, false).complete && (|path| > 1 ==> d.passable)
            <==> AllFine(VisitsOf(d, path, inside))
    decreases d, 0
  {
    var v, below := Visit(path, d, inside), VisitsFrom(d.children, 0, path, inside || IsFunction(d));
    ChildrenFine(d.children, 0, path, inside || IsFunction(d));
    assert d.children[0..] == d.children;
    FineAppend([v], below);
    assert AllFine([v]) <==> Fine(v);
    if d.readable && (|path| > 1 ==> d.passable) {
      OwnFine(d, inside, path);
    }
  }

  lemma {:induction false} ChildrenFine(ds: seq<Die>, i: nat, prefix: Path, inside: bool)
    requires i <= |ds| && prefix != []
    ensures WalkChildren(ds[i..], inside, false).complete <==> AllFine(VisitsFrom(ds, i, prefix, inside))
    decreases ds, |ds| - i
  {
    if i < |ds| {
      WalkFine(ds[i], prefix + [i], inside);
      ChildrenFine(ds, i + 1, prefix, inside);
      assert ds[i..][0] == ds[i] && ds[i..][1..] == ds[i + 1..];
      FineAppend(VisitsOf(ds[i], prefix + [i], inside), VisitsFrom(ds, i + 1, prefix, inside));
    }
  }

  lemma {:induction false} UnitsFine(ds: seq<Die>, i: nat)
    requires i <= |ds|
    ensures WalkUnits(ds[i..], false).complete <==> AllFine(VisitsFrom(ds, i, [], false))
    decreases |ds| - i
  {
    if i < |ds| {
      WalkFine(ds[i], [] + [i], false);
      UnitsFine(ds, i + 1);
      assert ds[i..][0] == ds[i] && ds[i..][1..] == ds[i + 1..];
      FineAppend(VisitsOf(ds[i], [] + [i], false), VisitsFrom(ds, i + 1, [], false));
    }
  }

  /** Indexing gets to the end if and only if everything it reads can be read. */
  lemma CompleteIffFine(ds: seq<Die>)
    ensures WalkUnits(ds, false).complete <==> forall v | Stands(ds, v) :: Fine(v)
  {
    var vs := VisitsFrom(ds, 0, [], false);
    UnitsFine(ds, 0);
    assert ds[0..] == ds;
    forall v ensures v in vs <==> Stands(ds, v) {
      VisitsFromIff(ds, 0, [], false, v);
      LeadsIff(ds, v.path, false, v.die, v.inside);
      assert v.path[0..] == v.path;
    }
  }

  /** The entry is a variable of that name in no function. */
  ghost predicate GlobalAt(ds: seq<Die>, name: string, d: Die) {
    exists v :: Stands(ds, v) && IsGlobal(v) && HasName(v, name) && v.die == d
  }

  lemma GlobalsByPath(ds: seq<Die>, name: string)
    ensures (forall v | Stands(ds, v) :: Fine(v)) ==>
              forall d :: Entry(name, d) in VariablesIn(WalkUnits(ds, false).effects) <==> GlobalAt(ds, name, d)
  {
    var vs := VariablesByPath(ds);
    CompleteIffFine(ds);
    UnitsBegin(ds);
    forall d ensures Entry(name, d) in EntriesOf(vs) <==> GlobalAt(ds, name, d) {
      if Entry(name, d) in EntriesOf(vs) {
        var k :| 0 <= k < |vs| && EntriesOf(vs)[k] == Entry(name, d);
        assert vs[k] in vs && HasName(vs[k], name);
      }
      if GlobalAt(ds, name, d) {
        var v :| Stands(ds, v) && IsGlobal(v) && HasName(v, name) && v.die == d;
        var k :| 0 <= k < |vs| && vs[k] == v;
        assert EntriesOf(vs)[k] == Entry(name, d);
      }
    }
  }
}
