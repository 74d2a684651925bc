/**
  Classes on which the program's parameter classes and the ABI's part.
 */
module MisclassifiedTypes {
  import opened Options
  import opened ParameterClasses
  import opened AbiClasses

  // ---- the ABI's side of classes of one or two members ----

  /** A scalar that lies in one eightbyte. */
  lemma ScalarInOne(m: Member, at: nat, e: nat)
    requires (m.type_.Base? || m.type_.Other?) && 0 < m.type_.size && 8 * e <= at + Offset(m) && at + Offset(m) + m.type_.size <= 8 * e + 8
    ensures LeavesOfMember(m, at) == {(e, ScalarClass(m.type_))}
  {
    var from, size := at + Offset(m), m.type_.size;
    TouchedIff(from, size, e);
    assert forall x | x in Touched(from, size) :: x == e;
    assert Touched(from, size) == {e};
  }

  lemma LeavesOfTwo(m: Member, m': Member, at: nat)
    ensures LeavesOfMembers([m, m'], at) == LeavesOfMember(m, at) + LeavesOfMember(m', at)
  {
    assert [m, m'][1..] == [m'] && [m'][1..] == [];
    assert LeavesOfMembers([m'], at) == LeavesOfMember(m', at) + LeavesOfMembers([], at);
  }

  /** A flat member's leaves, one eightbyte at a time. */
  lemma FlatMember(m: Member, size: nat, e: nat)
    requires Flat(m.type_) && StoredSize(m.type_) == size
    ensures forall c :: (e, c) in LeavesOfMember(m, 0) <==> Touches(Offset(m), size, e) && c == ScalarClass(ScalarOf(m.type_))
  {
    FlatTouches(m.type_, Offset(m));
    TouchedIff(Offset(m), size, e);
  }

  predicate PlainMember(m: Member) {
    !Unaligned(m.type_, Offset(m)) && !ByReference(m.type_)
  }

  /** The ABI's classes of a small class without anything that sends it elsewhere. */
  lemma PlainRecord(t: Type)
    requires t.Record? && t.size <= 16 && !t.irregular && !t.copies
    requires !AnyByReference(t.members) && !AnyMemberUnaligned(t.members, 0)
    ensures var s := LeavesOfMembers(t.members, 0);
            AbiClassesOf(t) == Some(Classes(Strongest(s, 0), Strongest(s, 1)))
    ensures Leaves(t, 0) == LeavesOfMembers(t.members, 0) && !Unaligned(t, 0) && !ByReference(t)
  {
  }

  lemma PlainOne(t: Type, m: Member)
    requires t.Record? && t.size <= 16 && !t.irregular && !t.copies && t.members == [m] && PlainMember(m)
    ensures var s := LeavesOfMember(m, 0);
            AbiClassesOf(t) == Some(Classes(Strongest(s, 0), Strongest(s, 1))) && Leaves(t, 0) == s
    ensures !Unaligned(t, 0) && !ByReference(t)
  {
    LastMember(m);
    PlainRecord(t);
  }

  lemma LastMember(m: Member)
    ensures LeavesOfMembers([m], 0) == LeavesOfMember(m, 0)
    ensures PlainMember(m) ==> !AnyMemberUnaligned([m], 0) && !AnyByReference([m])
  {
    assert [m][1..] == [];
    assert LeavesOfMembers([m], 0) == LeavesOfMember(m, 0) + LeavesOfMembers([], 0);
  }

  lemma PlainTwo(t: Type, m: Member, m': Member)
    requires t.Record? && t.size <= 16 && !t.irregular && !t.copies && t.members == [m, m']
    requires PlainMember(m) && PlainMember(m')
    ensures var s := LeavesOfMember(m, 0) + LeavesOfMember(m', 0);
            AbiClassesOf(t) == Some(Classes(Strongest(s, 0), Strongest(s, 1)))
  {
    assert t.members[1..] == [m'];
    LastMember(m');
    assert LeavesOfMembers(t.members, 0) == LeavesOfMember(m, 0) + LeavesOfMembers([m'], 0);
    assert !AnyMemberUnaligned(t.members, 0) && !AnyByReference(t.members);
    PlainRecord(t);
  }

  // ---- fields that are not counted where they are ----

  /** struct { int i; float f[2]; } */
  function IntThenFloats(): Type {
    Record(12, false, false, [Member(At(0), Base(Signed, 4)), Member(At(4), Array(Base(Float, 4), 2))])
  }

  /** struct { long x; enum E e; } */
  function LongThenEnum(): Type {
    Record(16, false, false, [Member(At(0), Base(Signed, 8)), Member(At(8), Other(4))])
  }

  /** Half of the floats lies in the second eightbyte, which the ABI passes and the program does not. */
  lemma FloatsAreOverlooked()
    ensures Classify(IntThenFloats()) == Some(Classes(Integer, NoClass))
    ensures AbiClassesOf(IntThenFloats()) == Some(Classes(Integer, Sse))
  {
    ClassesOfIntThenFloats();
    AbiOfIntThenFloats();
  }

  lemma AbiOfIntThenFloats()
    ensures AbiClassesOf(IntThenFloats()) == Some(Classes(Integer, Sse))
  {
    var t, ms := IntThenFloats(), IntThenFloats().members;
    FlatsArePlain(ms[1].type_, 4);
    PlainTwo(t, ms[0], ms[1]);
    ScalarInOne(ms[0], 0, 0);
    FloatsInBoth(ms[1]);
  }

  lemma FloatsInBoth(m: Member)
    requires m.type_.Array? && m.type_.element == Base(Float, 4) && m.type_.length == 2 && Offset(m) == 4
    ensures forall k :: (0, k) in LeavesOfMember(m, 0) <==> k == Sse
    ensures forall k :: (1, k) in LeavesOfMember(m, 0) <==> k == Sse
  {
    FlatMember(m, 8, 0);
    FlatMember(m, 8, 1);
  }

  /** Two scalars in a row. */
  lemma FlatsArePlain(t: Type, at: nat)
    requires t.Array? && t.element.Base? && t.element.encoding != ComplexFloat && t.length == 2 && t.element.size == 4 && at % 4 == 0
    ensures !Unaligned(t, at) && !ByReference(t)
  {
    FourIsPlain(t.element, at);
    FourIsPlain(t.element, at + 4);
    assert !AnyElementUnaligned(t.element, 0, at + 8);
    assert !AnyElementUnaligned(t.element, 1, at + 4);
  }

  lemma FourIsPlain(t: Type, at: nat)
    requires t.Base? && t.size == 4 && t.encoding != ComplexFloat && at % 4 == 0
    ensures !Unaligned(t, at)
  {
  }

  lemma ClassesOfIntThenFloats()
    ensures Classify(IntThenFloats()) == Some(Classes(Integer, NoClass))
  {
  }

  lemma ClassesOfLongThenEnum()
    ensures Classify(LongThenEnum()) == Some(Classes(Integer, NoClass))
  {
  }

  /** The enumeration has the second eightbyte to itself, and the program gives it no class. */
  lemma EnumIsOverlooked()
    ensures Classify(LongThenEnum()) == Some(Classes(Integer, NoClass))
    ensures AbiClassesOf(LongThenEnum()) == Some(Classes(Integer, Integer))
  {
    ClassesOfLongThenEnum();
    AbiOfLongThenEnum();
  }

  lemma AbiOfLongThenEnum()
    ensures AbiClassesOf(LongThenEnum()) == Some(Classes(Integer, Integer))
  {
    var t, ms := LongThenEnum(), LongThenEnum().members;
    PlainTwo(t, ms[0], ms[1]);
    ScalarInOne(ms[0], 0, 0);
    ScalarInOne(ms[1], 0, 1);
  }

  /** struct { float a; int b; } */
  function FloatThenInt(): Type {
    Record(8, false, false, [Member(At(0), Base(Float, 4)), Member(At(4), Base(Signed, 4))])
  }

  /** struct { float x; struct { float a; int b; } s[1]; } */
  function FloatThenArray(): Type {
    Record(12, false, false, [Member(At(0), Base(Float, 4)), Member(At(4), Array(FloatThenInt(), 1))])
  }

  lemma ClassesOfFloatThenInt()
    ensures Classify(FloatThenInt()) == Some(Classes(Integer, NoClass))
  {
  }

  lemma ClassesOfOne(element: Type)
    requires Classify(element) == Some(Classes(Integer, NoClass)) && ByteSize(element) == 8 && !NonTrivial(element)
    ensures Classify(Array(element, 1)) == Some(Classes(Integer, NoClass))
  {
  }

  lemma ClassesOfFloatThenArray()
    ensures Classify(FloatThenArray()) == Some(Classes(Integer, NoClass))
  {
    ClassesOfFloatThenInt();
    ClassesOfOne(FloatThenInt());
  }

  lemma LeavesOfFloatThenInt(at: nat)
    requires at == 4
    ensures Leaves(FloatThenInt(), at) == {(0, Sse), (1, Integer)}
  {
    var ms := FloatThenInt().members;
    assert ms == [ms[0], ms[1]];
    LeavesOfTwo(ms[0], ms[1], at);
    ScalarInOne(ms[0], at, 0);
    ScalarInOne(ms[1], at, 1);
  }

  /**
    The element's int lies in the second eightbyte once the array starts at 4, but
    the program classifies the element as if it started an eightbyte.
   */
  lemma ArrayOfClassesIsMisplaced()
    ensures Classify(FloatThenArray()) == Some(Classes(Integer, NoClass))
    ensures AbiClassesOf(FloatThenArray()) == Some(Classes(Sse, Integer))
  {
    ClassesOfFloatThenArray();
    AbiOfFloatThenArray();
  }

  lemma AbiOfFloatThenArray()
    ensures AbiClassesOf(FloatThenArray()) == Some(Classes(Sse, Integer))
  {
    var t, ms := FloatThenArray(), FloatThenArray().members;
    LeavesOfFloatThenInt(4);
    FloatThenIntIsPlain(4);
    OneElement(FloatThenInt(), 4);
    PlainTwo(t, ms[0], ms[1]);
    ScalarInOne(ms[0], 0, 0);
  }

  lemma OneElement(t: Type, at: nat)
    ensures Leaves(Array(t, 1), at) == Leaves(t, at) && (Unaligned(Array(t, 1), at) <==> Unaligned(t, at))
    ensures ByReference(Array(t, 1)) <==> ByReference(t)
  {
    assert LeavesOfElements(t, 1, at) == Leaves(t, at) + LeavesOfElements(t, 0, at + StoredSize(t));
    assert !AnyElementUnaligned(t, 0, at + StoredSize(t));
  }

  lemma FloatThenIntIsPlain(at: nat)
    requires at % 4 == 0
    ensures !Unaligned(FloatThenInt(), at) && !ByReference(FloatThenInt())
  {
    var ms := FloatThenInt().members;
    assert ms[1..] == [ms[1]] && [ms[1]][1..] == [];
    assert !MemberUnaligned(ms[0], at) && !MemberUnaligned(ms[1], at);
    assert !AnyMemberUnaligned([ms[1]], at) && !AnyByReference([ms[1]]);
  }

  // ---- typedefs, unions, base classes and bit fields ----

  /** struct { long a; } */
  function OneLong(): Type {
    Record(8, false, false, [Member(At(0), Base(Signed, 8))])
  }

  /** typedef struct { long a; } T; */
  function OneLongTypedef(): Type {
    Alias(OneLong(), false)
  }

  /** typedef float vec2[2]; struct { vec2 v; } */
  function VectorField(): Type {
    Record(8, false, false, [Member(At(0), Alias(Array(Base(Float, 4), 2), false))])
  }

  /** union { long a; double d; }, described without locations as section 5.5.6 of the DWARF 4 standard allows. */
  function LongOrDouble(): Type {
    Record(8, false, false, [Member(AtStart, Base(Signed, 8)), Member(AtStart, Base(Float, 8))])
  }

  /** struct D : OneLong { long b; } */
  function DerivedLongs(): Type {
    Record(16, false, false, [Member(Inherited(0), OneLong()), Member(At(8), Base(Signed, 8))])
  }

  /** struct { long a; int b : 3; } */
  function LongThenBits(): Type {
    Record(16, false, false, [Member(At(0), Base(Signed, 8)), Member(BitField(8, 0, true), Base(Signed, 4))])
  }

  lemma OneLongInAbi()
    ensures Leaves(OneLong(), 0) == {(0, Integer)} && AbiClassesOf(OneLong()) == Some(Classes(Integer, NoClass))
    ensures !Unaligned(OneLong(), 0) && !ByReference(OneLong())
  {
    var t, m := OneLong(), OneLong().members[0];
    PlainOne(t, m);
    ScalarInOne(m, 0, 0);
  }

  lemma ClassesOfOneLong()
    ensures Classify(OneLong()) == Some(Classes(Integer, NoClass))
  {
  }

  /** Behind a typedef or qualifier the program finds no member. */
  lemma TypedefIsOverlooked()
    ensures Classify(OneLong()) == Some(Classes(Integer, NoClass))
    ensures Classify(OneLongTypedef()) == Some(Classes(NoClass, NoClass))
    ensures AbiClassesOf(OneLongTypedef()) == AbiClassesOf(OneLong()) == Some(Classes(Integer, NoClass))
  {
    ClassesOfOneLong();
    OneLongInAbi();
  }

  lemma ClassesOfVectorField()
    ensures Classify(VectorField()) == Some(Classes(NoClass, NoClass))
  {
  }

  /** The array behind the typedef has no class. */
  lemma VectorIsOverlooked()
    ensures Classify(VectorField()) == Some(Classes(NoClass, NoClass))
    ensures AbiClassesOf(VectorField()) == Some(Classes(Sse, NoClass))
  {
    ClassesOfVectorField();
    AbiOfVectorField();
  }

  lemma AbiOfVectorField()
    ensures AbiClassesOf(VectorField()) == Some(Classes(Sse, NoClass))
  {
    var t, m := VectorField(), VectorField().members[0];
    FlatsArePlain(m.type_.target, 0);
    PlainOne(t, m);
    FlatMember(m, 8, 0);
    FlatMember(m, 8, 1);
  }

  lemma ClassesOfLongOrDouble()
    ensures Classify(LongOrDouble()) == Some(Classes(NoClass, NoClass))
  {
  }

  /** No member of the union is seen. */
  lemma UnionIsOverlooked()
    ensures Classify(LongOrDouble()) == Some(Classes(NoClass, NoClass))
    ensures AbiClassesOf(LongOrDouble()) == Some(Classes(Integer, NoClass))
  {
    ClassesOfLongOrDouble();
    AbiOfLongOrDouble();
  }

  lemma AbiOfLongOrDouble()
    ensures AbiClassesOf(LongOrDouble()) == Some(Classes(Integer, NoClass))
  {
    var t, ms := LongOrDouble(), LongOrDouble().members;
    PlainTwo(t, ms[0], ms[1]);
    ScalarInOne(ms[0], 0, 0);
    ScalarInOne(ms[1], 0, 0);
  }

  lemma ClassesOfDerivedLongs()
    ensures Classify(DerivedLongs()) == Some(Classes(NoClass, Integer))
  {
  }

  /** The member of the base class is not seen. */
  lemma BaseIsOverlooked()
    ensures Classify(DerivedLongs()) == Some(Classes(NoClass, Integer))
    ensures AbiClassesOf(DerivedLongs()) == Some(Classes(Integer, Integer))
  {
    ClassesOfDerivedLongs();
    AbiOfDerivedLongs();
  }

  lemma AbiOfDerivedLongs()
    ensures AbiClassesOf(DerivedLongs()) == Some(Classes(Integer, Integer))
  {
    var t, ms := DerivedLongs(), DerivedLongs().members;
    OneLongInAbi();
    PlainTwo(t, ms[0], ms[1]);
    ScalarInOne(ms[1], 0, 1);
  }

  lemma ClassesOfLongThenBits()
    ensures Classify(LongThenBits()) == Some(Classes(Integer, NoClass))
  {
  }

  /** The bit field is taken for one of the first eightbyte. */
  lemma BitFieldIsMisplaced()
    ensures Classify(LongThenBits()) == Some(Classes(Integer, NoClass))
    ensures AbiClassesOf(LongThenBits()) == Some(Classes(Integer, Integer))
  {
    ClassesOfLongThenBits();
    AbiOfLongThenBits();
  }

  lemma AbiOfLongThenBits()
    ensures AbiClassesOf(LongThenBits()) == Some(Classes(Integer, Integer))
  {
    var t, ms := LongThenBits(), LongThenBits().members;
    PlainTwo(t, ms[0], ms[1]);
    ScalarInOne(ms[0], 0, 0);
    ScalarInOne(ms[1], 0, 1);
  }

  /** struct {}, which is one byte large in C++. */
  function Empty(): Type {
    Record(1, false, false, [])
  }

  lemma EmptyHasNoClass()
    ensures Classify(Empty()) == AbiClassesOf(Empty()) == Some(Classes(NoClass, NoClass))
  {
    PlainRecord(Empty());
  }

  /** A copy constructor is found under the class's own name only: behind another name the class is not refused. */
  lemma TypedefHidesConstructor(size: nat, ms: seq<Member>)
    requires !AnyNonTrivial(ms)
    ensures var t := Record(size, false, true, ms);
            && Classify(t) == None && Classify(Alias(t, true)) == None && Classify(Alias(t, false)).Some?
            && AbiClassesOf(t) == None && AbiClassesOf(Alias(t, false)) == None
  {
    var t := Record(size, false, true, ms);
    assert Stripped(t) == t;
    assert NonTrivialBehind(t, true) && !NonTrivialBehind(t, false);
    assert NonTrivial(Alias(t, true)) && IsAggregate(Alias(t, true));
    assert !NonTrivial(Alias(t, false)) && IsAggregate(Alias(t, false));
  }
}
