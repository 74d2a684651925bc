/**
  The classes the System V AMD64 ABI (section 3.2.3) gives a parameter type,
  as gsdb::type::get_parameter_classes computes them from its DWARF description.
 */
module ParameterClasses {
  import opened Options

  datatype Class = Integer | Sse | SseUp | X87 | X87Up | ComplexX87 | InMemory | NoClass

  datatype Classes = Classes(first: Class, second: Class)

  datatype Encoding = Boolean | Float | Signed | SignedChar | Unsigned | UnsignedChar | ComplexFloat | OtherEncoding

  /**
    A type's entry.  `declared` is DW_AT_byte_size, which producers may omit on a
    reference.  `irregular` says that a class has a virtual member, a virtual base
    or a destructor that makes it non-trivial for calls, and `copies` that a copy
    or move constructor does.  Enumerations, pointers to members and what is behind
    a restrict are Other.  A typedef, const or volatile is an Alias; `ownName` says that it is a typedef with the
    name of the class behind it.
   */
  datatype Type =
    | Base(encoding: Encoding, size: nat)
    | Pointer
    | Reference(target: Type, declared: Option<nat>)
    | Record(size: nat, irregular: bool, copies: bool, members: seq<Member>)
    | Array(element: Type, length: nat)
    | Other(size: nat)
    | Alias(target: Type, ownName: bool)

  /** A data member that is not static, or a base class. */
  datatype Member = Member(place: Place, type_: Type)

  /**
    Where a member is: At has DW_AT_data_member_location, AtStart neither that nor
    DW_AT_data_bit_offset, which section 5.5.6 of the DWARF 4 standard allows at
    the start of the class, and Inherited is a base class.  A bit field is in a
    storage unit of its type at `unit`, which lies within one eightbyte; `bit` is
    its bit offset as get_bitfield_information computes it, in the unit from
    DW_AT_bit_offset or modulo eight from DW_AT_data_bit_offset, and `located`
    says that it has DW_AT_data_member_location.
   */
  datatype Place =
    | At(offset: nat)
    | AtStart
    | Inherited(offset: nat)
    | BitField(unit: nat, bit: nat, located: bool)

  /** Where the member, or a bit field's storage unit, starts. */
  function Offset(m: Member): nat {
    match m.place
    case At(offset) => offset
    case AtStart => 0
    case Inherited(offset) => offset
    case BitField(unit, _, _) => unit
  }

  /** The loops over data members take the member. */
  predicate Visible(m: Member) {
    m.place.At? || m.place.BitField?
  }

  /** The byte at which classify_class_field takes the member to start. */
  function CountedOffset(m: Member): nat {
    if m.place.BitField? then m.place.bit / 8 else Offset(m)
  }

  /** strip_cv_typedef. */
  function Stripped(t: Type): (r: Type)
    ensures !r.Alias?
  {
    if t.Alias? then Stripped(t.target) else t
  }

  /** is_class_type. */
  predicate IsClass(t: Type) {
    Stripped(t).Record?
  }

  /** is_reference_type. */
  predicate IsReference(t: Type) {
    Stripped(t).Reference?
  }

  /** compute_byte_size. */
  function ByteSize(t: Type): nat {
    match t
    case Base(_, size) => size
    case Pointer => 8
    case Reference(target, declared) => if declared.Some? then declared.value else ByteSize(target)
    case Record(size, _, _, _) => size
    case Array(element, length) => ByteSize(element) * length
    case Other(size) => size
    case Alias(target, _) => ByteSize(target)
  }

  function Alignment(t: Type): nat
    decreases t, 1
  {
    match t
    case Record(_, _, _, members) => LargestAlignment(members)
    case Array(element, _) => Alignment(element)
    case Alias(target, _) => Alignment(target)
    case _ => ByteSize(t)
  }

  function LargestAlignment(ms: seq<Member>): nat
    decreases ms, 0
  {
    if ms == [] then 1 else
    var rest, own := LargestAlignment(ms[1..]), MemberAlignment(ms[0]);
    if own > rest then own else rest
  }

  function MemberAlignment(m: Member): nat
    decreases m, 2
  {
    if Visible(m) then Alignment(m.type_) else 1
  }

  predicate HasUnalignedFields(t: Type)
    decreases t, 1
  {
    match t
    case Record(_, _, _, members) => AnyUnaligned(members)
    case Alias(target, _) => HasUnalignedFields(target)
    case _ => false
  }

  predicate AnyUnaligned(ms: seq<Member>)
    decreases ms, 0
  {
    ms != [] && (UnalignedField(ms[0]) || AnyUnaligned(ms[1..]))
  }

  predicate UnalignedField(m: Member)
    decreases m, 2
  {
    && (m.place.At? || (m.place.BitField? && m.place.located))
    && (|| (Alignment(m.type_) != 0 && Offset(m) % Alignment(m.type_) != 0)
        || HasUnalignedFields(m.type_))
  }

  /** is_non_trivial_for_calls. */
  predicate NonTrivial(t: Type)
    decreases t, 1
  {
    match t
    case Record(_, irregular, copies, members) => irregular || copies || AnyNonTrivial(members)
    case Array(element, _) => NonTrivial(element)
    case Alias(target, ownName) => NonTrivialBehind(target, ownName)
    case _ => false
  }

  /** Constructors are known by the name of the entry asked, so that a typedef or qualifier hides them. */
  predicate NonTrivialBehind(t: Type, ownName: bool)
    decreases t, 1
  {
    match t
    case Record(_, irregular, copies, members) => irregular || (copies && ownName) || AnyNonTrivial(members)
    case Array(element, _) => NonTrivial(element)
    case Alias(target, _) => NonTrivialBehind(target, ownName)
    case _ => false
  }

  predicate AnyNonTrivial(ms: seq<Member>)
    decreases ms, 0
  {
    ms != [] && (MemberNonTrivial(ms[0]) || AnyNonTrivial(ms[1..]))
  }

  predicate MemberNonTrivial(m: Member)
    decreases m, 2
  {
    (Visible(m) || m.place.Inherited?) && NonTrivial(m.type_)
  }

  predicate IsX87(c: Class) {
    c == X87 || c == X87Up || c == ComplexX87
  }

  /** merge_parameter_classes. */
  function Merge(a: Class, b: Class): Class {
    if a == b then a
    else if a == NoClass then b
    else if b == NoClass then a
    else if a == InMemory || b == InMemory then InMemory
    else if a == Integer || b == Integer then Integer
    else if IsX87(a) || IsX87(b) then InMemory
    else Sse
  }

  /** The pass over both eightbytes that closes classify_class_type. */
  function Cleanup(c: Classes): Classes {
    if c.first == InMemory || c.second == InMemory || (c.second == X87Up && c.first != X87)
    then Classes(InMemory, InMemory)
    else c
  }

  /** get_parameter_classes; None where it reports an error. */
  function Classify(t: Type): (r: Option<Classes>)
    decreases t, 1
  {
    match t
    case Base(encoding, size) =>
      if size <= 8 then
        match encoding {
          case OtherEncoding => None
          case ComplexFloat => None
          case Float => Some(Classes(Sse, NoClass))
          case _ => Some(Classes(Integer, NoClass))
        }
      else if encoding == Float && size == 16 then Some(Classes(X87, X87Up))
      else Some(Classes(NoClass, NoClass))
    case Pointer => Some(Classes(Integer, NoClass))
    case Reference(_, _) => Some(Classes(Integer, NoClass))
    case Record(size, _, _, members) =>
      if NonTrivial(t) then None
      else if size > 16 || HasUnalignedFields(t) then Some(Classes(InMemory, InMemory))
      else
        var c := ClassifyMembers(members, 0, Classes(NoClass, NoClass));
        if c.None? then None else Some(Cleanup(c.value))
    case Array(element, _) =>
      if NonTrivial(t) then None
      else if ByteSize(t) > 16 then Some(Classes(InMemory, InMemory))
      else
        var c := Classify(element);
        if c.None? then None
        else Some(Cleanup(if ByteSize(t) > 8 && c.value.second == NoClass
                          then Classes(c.value.first, c.value.first) else c.value))
    case Other(_) => Some(Classes(NoClass, NoClass))
    case Alias(target, _) =>
      if !IsAggregate(t) then Classify(target)
      else if NonTrivial(t) then None
      else if ByteSize(t) > 16 || HasUnalignedFields(t) then Some(Classes(InMemory, InMemory))
      // the entry of a typedef or qualifier is no array and has no members
      else Some(Classes(NoClass, NoClass))
  }

  predicate IsAggregate(t: Type) {
    Stripped(t).Record? || Stripped(t).Array?
  }

  /** One scalar field merged into the eightbyte where it starts, and the next; there are only two. */
  function MergeField(c: Classes, eightbyte: nat, f: Classes): Option<Classes> {
    if eightbyte == 0 then Some(Classes(Merge(c.first, f.first), Merge(c.second, f.second)))
    else if eightbyte == 1 then Some(c.(second := Merge(c.second, f.first)))
    else None
  }

  /** The fields of a class at a byte offset, and of the classes among them, merged into c. */
  function ClassifyMembers(ms: seq<Member>, offset: nat, c: Classes): Option<Classes>
    decreases ms, 0
  {
    if ms == [] then Some(c) else
    var next := ClassifyMember(ms[0], offset, c);
    if next.None? then None else ClassifyMembers(ms[1..], offset, next.value)
  }

  function ClassifyMember(m: Member, offset: nat, c: Classes): Option<Classes>
    decreases m, 2
  {
    if !Visible(m) then Some(c)
    else if m.type_.Record? then ClassifyMembers(m.type_.members, offset + CountedOffset(m), c)
    else if IsClass(m.type_) then Some(c)
    else
      var f := Classify(m.type_);
      if f.None? then None else MergeField(c, (offset + CountedOffset(m)) / 8, f.value)
  }

  /** classify_class_field: `classes` is updated in place, field after field. */
  method ClassifyClassField(field: Member, offset: nat, classes: array<Class>) returns (ok: bool)
    requires classes.Length == 2 && Visible(field)
    modifies classes
    ensures var r := ClassifyMember(field, offset, Classes(old(classes[0]), old(classes[1])));
            ok == r.Some? && (ok ==> r.value == Classes(classes[0], classes[1]))
    decreases field
  {
    var at := offset + CountedOffset(field);
    if IsClass(field.type_) {
      // the children of the field's own type entry, of which a typedef or qualifier has none
      var children := if field.type_.Record? then field.type_.members else [];
      ghost var whole := ClassifyMembers(children, at, Classes(classes[0], classes[1]));
      for i := 0 to |children|
        invariant ClassifyMembers(children[i..], at, Classes(classes[0], classes[1])) == whole
      {
        assert children[i..][1..] == children[i + 1..];
        if Visible(children[i]) {
          ok := ClassifyClassField(children[i], at, classes);
          if !ok {
            return;
          }
        }
      }
      return true;
    }
    var f := Classify(field.type_);
    if f.None? || at / 8 > 1 {
      return false;
    }
    var eightbyte := at / 8;
    classes[eightbyte] := Merge(classes[eightbyte], f.value.first);
    if eightbyte == 0 {
      classes[1] := Merge(classes[1], f.value.second);
    }
    return true;
  }

  /** The classes that section 3.2.3 orders NO_CLASS < SSE < INTEGER < MEMORY. */
  predicate Plain(c: Class) {
    c == NoClass || c == Sse || c == Integer || c == InMemory
  }

  predicate PlainClasses(c: Classes) {
    Plain(c.first) && Plain(c.second)
  }

  /** No long double occurs in the type, other than behind a pointer or reference. */
  predicate X87Free(t: Type)
    decreases t, 1
  {
    match t
    case Base(encoding, size) => !(encoding == Float && size == 16)
    case Record(_, _, _, members) => AllX87Free(members)
    case Array(element, _) => X87Free(element)
    case Alias(target, _) => X87Free(target)
    case _ => true
  }

  predicate AllX87Free(ms: seq<Member>)
    decreases ms, 0
  {
    ms == [] || (MemberX87Free(ms[0]) && AllX87Free(ms[1..]))
  }

  predicate MemberX87Free(m: Member)
    decreases m, 2
  {
    X87Free(m.type_)
  }

  /** The eightbytes touched by the scalar fields of a class, each with the class the field gives it. */
  function Contributions(ms: seq<Member>, offset: nat): set<(nat, Class)>
    decreases ms, 0
  {
    if ms == [] then {} else Contribution(ms[0], offset) + Contributions(ms[1..], offset)
  }

  function Contribution(m: Member, offset: nat): set<(nat, Class)>
    decreases m, 2
  {
    var at := offset + CountedOffset(m);
    if !Visible(m) then {}
    else if m.type_.Record? then Contributions(m.type_.members, at)
    else if IsClass(m.type_) then {}
    else
      var f := Classify(m.type_);
      if f.None? then {}
      else {(at / 8, f.value.first)} + if at / 8 == 0 then {(1, f.value.second)} else {}
  }

  function Strongest(s: set<(nat, Class)>, eightbyte: nat): Class {
    if (eightbyte, InMemory) in s then InMemory
    else if (eightbyte, Integer) in s then Integer
    else if (eightbyte, Sse) in s then Sse
    else NoClass
  }

  function Strengthened(c: Classes, s: set<(nat, Class)>): Classes {
    Classes(Merge(c.first, Strongest(s, 0)), Merge(c.second, Strongest(s, 1)))
  }

  /** Merging field after field is taking the strongest class of each eightbyte, in whatever order the fields come. */
  lemma {:induction false} MembersMergeToStrongest(ms: seq<Member>, offset: nat, c: Classes)
    requires AllX87Free(ms) && PlainClasses(c) && ClassifyMembers(ms, offset, c).Some?
    ensures ClassifyMembers(ms, offset, c).value == Strengthened(c, Contributions(ms, offset))
    ensures PlainClasses(ClassifyMembers(ms, offset, c).value)
    decreases ms, 0
  {
    if ms != [] {
      var own, rest := Contribution(ms[0], offset), Contributions(ms[1..], offset);
      MemberMergesToStrongest(ms[0], offset, c);
      MembersMergeToStrongest(ms[1..], offset, ClassifyMember(ms[0], offset, c).value);
      StrongestOfBoth(c.first, own, rest, 0);
      StrongestOfBoth(c.second, own, rest, 1);
    }
  }

  lemma StrongestOfBoth(c: Class, s: set<(nat, Class)>, t: set<(nat, Class)>, eightbyte: nat)
    requires Plain(c)
    ensures Merge(Merge(c, Strongest(s, eightbyte)), Strongest(t, eightbyte)) == Merge(c, Strongest(s + t, eightbyte))
  {
  }

  /** A single field contributes its classes to the eightbyte where it starts, and the next. */
  lemma FieldStrengthens(c: Classes, e: nat, f: Classes)
    requires PlainClasses(c) && PlainClasses(f) && e <= 1
    ensures var r := Strengthened(c, {(e, f.first)} + if e == 0 then {(1, f.second)} else {});
            MergeField(c, e, f) == Some(r) && PlainClasses(r)
  {
  }

  lemma {:induction false} MemberMergesToStrongest(m: Member, offset: nat, c: Classes)
    requires X87Free(m.type_) && PlainClasses(c) && ClassifyMember(m, offset, c).Some?
    ensures ClassifyMember(m, offset, c).value == Strengthened(c, Contribution(m, offset))
    ensures PlainClasses(ClassifyMember(m, offset, c).value)
    decreases m, 2
  {
    if !Visible(m) {
    } else if m.type_.Record? {
      MembersMergeToStrongest(m.type_.members, offset + CountedOffset(m), c);
    } else if !IsClass(m.type_) {
      X87FreeIsPlain(m.type_);
      FieldStrengthens(c, (offset + CountedOffset(m)) / 8, Classify(m.type_).value);
    }
  }

  /** Without long double nothing but these classes comes out, and memory takes both eightbytes or none. */
  lemma {:induction false} X87FreeIsPlain(t: Type)
    requires X87Free(t) && Classify(t).Some?
    ensures PlainClasses(Classify(t).value)
    ensures Classify(t).value.first == InMemory <==> Classify(t).value.second == InMemory
    decreases t, 1
  {
    match t {
      case Record(size, _, _, members) =>
        if size <= 16 && !HasUnalignedFields(t) {
          MembersMergeToStrongest(members, 0, Classes(NoClass, NoClass));
        }
      case Array(element, _) =>
        if ByteSize(t) <= 16 {
          X87FreeIsPlain(element);
        }
      case Alias(target, _) =>
        if !IsAggregate(t) {
          X87FreeIsPlain(target);
        }
      case _ =>
    }
  }

  /** The members that the type's own entry has; those of a typedef or qualifier are behind it. */
  function OwnMembers(t: Type): seq<Member> {
    if t.Record? then t.members else []
  }

  /** A class of at most two eightbytes without long double gets the strongest class of each eightbyte's contributions. */
  lemma RecordClasses(t: Type)
    requires IsClass(t) && ByteSize(t) <= 16 && !HasUnalignedFields(t) && X87Free(t)
    requires Classify(t).Some?
    ensures var s := Contributions(OwnMembers(t), 0);
            Classify(t).value ==
              if Strongest(s, 0) == InMemory || Strongest(s, 1) == InMemory then Classes(InMemory, InMemory)
              else Classes(Strongest(s, 0), Strongest(s, 1))
  {
    if t.Record? {
      MembersMergeToStrongest(t.members, 0, Classes(NoClass, NoClass));
    }
  }

  function Count(c: Classes, k: Class): nat {
    (if c.first == k then 1 else 0) + (if c.second == k then 1 else 0)
  }

  predicate TakesRegisters(c: Classes) {
    Count(c, Integer) > 0 || Count(c, Sse) > 0
  }

  /**
    A type with a register class fits two eightbytes, with one family of
    exceptions: a reference whose entry has no DW_AT_byte_size counts with the
    size of what it refers to.
   */
  lemma {:induction false} RegisterClassesFit(t: Type)
    requires Classify(t).Some? && TakesRegisters(Classify(t).value)
    ensures var r := Stripped(t);
            ByteSize(t) > 16 <==>
            && r.Reference?
            && ((r.declared.None? && ByteSize(r.target) > 16) || (r.declared.Some? && r.declared.value > 16))
  {
    if t.Alias? && !IsAggregate(t) {
      RegisterClassesFit(t.target);
    }
  }

  /** The exception exists: a reference to a large class, described as Clang describes it. */
  lemma UndeclaredReferenceIsLarge()
    ensures exists t :: Classify(t).Some? && TakesRegisters(Classify(t).value) && ByteSize(t) > 16
  {
    var t := Reference(Record(24, false, false, []), None);
    assert Classify(t).Some? && ByteSize(t) == ByteSize(t.target);
  }

  // ---- typedefs and qualifiers ----

  /** Size, alignment of fields and kind are those of what an alias stands for. */
  lemma {:induction false} AliasIsTransparent(t: Type)
    ensures ByteSize(t) == ByteSize(Stripped(t)) && Alignment(t) == Alignment(Stripped(t))
    ensures (HasUnalignedFields(t) <==> HasUnalignedFields(Stripped(t))) && (X87Free(t) <==> X87Free(Stripped(t)))
  {
    if t.Alias? {
      AliasIsTransparent(t.target);
    }
  }

  /** A scalar, pointer or reference keeps its class behind an alias. */
  lemma {:induction false} AliasKeepsScalar(t: Type)
    requires !IsAggregate(t)
    ensures Classify(t) == Classify(Stripped(t))
  {
    if t.Alias? {
      AliasKeepsScalar(t.target);
    }
  }

  /** A class or array behind an alias never gets a register class. */
  lemma AliasLosesClasses(t: Type)
    requires t.Alias? && IsAggregate(t) && Classify(t).Some?
    ensures !TakesRegisters(Classify(t).value)
  {
  }
}
