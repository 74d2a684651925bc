/**
  The two checks that precede the classification of a class, for classes whose
  members are all in sight: whether it is trivial for calls, and whether it has
  unaligned fields.
 */
module ClassChecks {
  import opened Options
  import opened ParameterClasses
  import opened AbiClasses

  /** No typedef or qualifier, and every member with a location. */
  predicate InSight(t: Type)
    decreases t, 1
  {
    match t
    case Record(_, _, _, members) => AllInSight(members)
    case Array(element, _) => InSight(element)
    case Alias(_, _) => false
    case _ => true
  }

  predicate AllInSight(ms: seq<Member>)
    decreases ms, 0
  {
    ms == [] || (MemberInSight(ms[0]) && AllInSight(ms[1..]))
  }

  predicate MemberInSight(m: Member)
    decreases m, 2
  {
    !m.place.AtStart? && InSight(m.type_)
  }

  /** There it refuses exactly the classes that are passed by reference. */
  lemma {:induction false} NonTrivialIff(t: Type)
    requires InSight(t)
    ensures NonTrivial(t) <==> ByReference(t)
    decreases t, 1
  {
    match t {
      case Record(_, _, _, members) => NonTrivialMembersIff(members);
      case Array(element, _) => NonTrivialIff(element);
      case _ =>
    }
  }

  lemma {:induction false} NonTrivialMembersIff(ms: seq<Member>)
    requires AllInSight(ms)
    ensures AnyNonTrivial(ms) <==> AnyByReference(ms)
    decreases ms, 0
  {
    if ms != [] {
      NonTrivialMemberIff(ms[0]);
      NonTrivialMembersIff(ms[1..]);
    }
  }

  lemma {:induction false} NonTrivialMemberIff(m: Member)
    requires MemberInSight(m)
    ensures MemberNonTrivial(m) <==> MemberByReference(m)
    decreases m, 2
  {
    NonTrivialIff(m.type_);
  }

  /** The sizes and alignments of scalars. */
  predicate WordSize(n: nat) {
    n == 1 || n == 2 || n == 4 || n == 8 || n == 16
  }

  /** Members at offsets, scalars stored as they are sized and aligned to their size, arrays of scalars that are not empty. */
  predicate Regular(t: Type)
    decreases t, 1
  {
    match t
    case Record(_, _, _, members) => AllRegular(members)
    case Array(element, length) => length > 0 && Flat(element) && Regular(element)
    case Alias(target, _) => Regular(target)
    case _ => WordSize(ByteSize(t)) && NaturalAlignment(t) == ByteSize(t)
  }

  predicate AllRegular(ms: seq<Member>)
    decreases ms, 0
  {
    ms == [] || (MemberRegular(ms[0]) && AllRegular(ms[1..]))
  }

  predicate MemberRegular(m: Member)
    decreases m, 2
  {
    m.place.At? && Regular(m.type_)
  }

  lemma {:induction false} RegularAlignment(t: Type)
    requires Regular(t)
    ensures WordSize(Alignment(t))
    decreases t, 1
  {
    match t {
      case Record(_, _, _, members) => RegularMembers(members);
      case Array(element, _) => RegularAlignment(element);
      case Alias(target, _) => RegularAlignment(target);
      case _ =>
    }
  }

  lemma {:induction false} RegularMembers(ms: seq<Member>)
    requires AllRegular(ms)
    ensures WordSize(LargestAlignment(ms))
    decreases ms, 0
  {
    if ms != [] {
      RegularMember(ms[0]);
      RegularMembers(ms[1..]);
    }
  }

  lemma {:induction false} RegularMember(m: Member)
    requires MemberRegular(m)
    ensures WordSize(MemberAlignment(m))
    decreases m, 2
  {
    RegularAlignment(m.type_);
  }

  /** What is a multiple of an alignment is one of every smaller one. */
  lemma {:induction false} SmallerDivides(x: nat, a: nat, b: nat)
    requires WordSize(a) && WordSize(b) && b <= a && x % a == 0
    ensures x % b == 0
    decreases a
  {
    if b < a {
      HalfDivides(x, a / 2);
      SmallerDivides(x, a / 2, b);
    }
  }

  lemma HalfDivides(x: nat, a: nat)
    requires (a == 1 || a == 2 || a == 4 || a == 8) && x % (2 * a) == 0
    ensures x % a == 0
  {
    var q := x / (2 * a);
    assert x == 2 * a * q == a * (2 * q);
    MultipleOf(a, 2 * q);
  }

  lemma MultipleOf(a: nat, q: nat)
    requires a == 1 || a == 2 || a == 4 || a == 8
    ensures a * q % a == 0
  {
  }

  lemma SumDivides(x: nat, y: nat, a: nat)
    requires WordSize(a) && x % a == 0
    ensures (x + y) % a == 0 <==> y % a == 0
  {
  }

  /** A flat type is a multiple of its alignment. */
  lemma {:induction false} FlatSizeDivides(t: Type)
    requires Flat(t) && Regular(t)
    ensures WordSize(Alignment(t)) && StoredSize(t) % Alignment(t) == 0 && StoredSize(t) > 0
  {
    RegularAlignment(t);
    match t {
      case Array(element, length) =>
        FlatSizeDivides(element);
        MultipleDivides(StoredSize(element), length, Alignment(element));
      case Alias(target, _) => FlatSizeDivides(target);
      case _ =>
    }
  }

  lemma {:induction false} MultipleDivides(x: nat, n: nat, a: nat)
    requires WordSize(a) && x % a == 0 && x > 0 && n > 0
    ensures x * n % a == 0 && x * n > 0
    decreases n
  {
    if n == 1 {
      assert x * n == x;
    } else {
      MultipleDivides(x, n - 1, a);
      assert x * n == x * (n - 1) + x;
      SumDivides(x * (n - 1), x, a);
    }
  }

  /** At a multiple of its alignment, a class in which the program finds nothing unaligned has nothing unaligned. */
  lemma {:induction false} AlignedIsFound(t: Type, at: nat)
    requires Regular(t) && !HasUnalignedFields(t) && WordSize(Alignment(t)) && at % Alignment(t) == 0
    ensures !Unaligned(t, at)
    decreases t, 1
  {
    match t {
      case Record(_, _, _, members) => AlignedMembers(members, at, Alignment(t));
      case Array(element, length) => AlignedElements(element, length, at);
      case Alias(target, _) => AlignedIsFound(target, at);
      case _ =>
    }
  }

  lemma {:induction false} AlignedElements(t: Type, length: nat, at: nat)
    requires Flat(t) && Regular(t) && WordSize(Alignment(t)) && at % Alignment(t) == 0
    ensures !AnyElementUnaligned(t, length, at)
    decreases t, 2 + length
  {
    if length > 0 {
      FlatIsAligned(t);
      FlatSizeDivides(t);
      AlignedIsFound(t, at);
      SumDivides(at, StoredSize(t), Alignment(t));
      AlignedElements(t, length - 1, at + StoredSize(t));
    }
  }

  lemma {:induction false} FlatIsAligned(t: Type)
    requires Flat(t)
    ensures !HasUnalignedFields(t)
  {
    if t.Alias? {
      FlatIsAligned(t.target);
    }
  }

  lemma {:induction false} AlignedMembers(ms: seq<Member>, at: nat, a: nat)
    requires AllRegular(ms) && !AnyUnaligned(ms) && WordSize(a) && LargestAlignment(ms) <= a && at % a == 0
    ensures !AnyMemberUnaligned(ms, at)
    decreases ms, 0
  {
    if ms != [] {
      AlignedMember(ms[0], at, a);
      AlignedMembers(ms[1..], at, a);
    }
  }

  lemma {:induction false} AlignedMember(m: Member, at: nat, a: nat)
    requires MemberRegular(m) && !UnalignedField(m) && WordSize(a) && MemberAlignment(m) <= a && at % a == 0
    ensures !MemberUnaligned(m, at)
    decreases m, 2
  {
    RegularAlignment(m.type_);
    SmallerDivides(at, a, Alignment(m.type_));
    SumDivides(at, Offset(m), Alignment(m.type_));
    AlignedIsFound(m.type_, at + Offset(m));
  }

  /** The first scalar of an unaligned scalar or array is unaligned. */
  lemma {:induction false} FlatUnaligned(t: Type, at: nat)
    requires Flat(t) && Regular(t) && Alignment(t) != 0 && at % Alignment(t) != 0
    ensures Unaligned(t, at)
  {
    match t {
      case Array(element, length) =>
        FlatUnaligned(element, at);
        assert AnyElementUnaligned(element, length, at);
      case Alias(target, _) => FlatUnaligned(target, at);
      case _ =>
    }
  }

  predicate NoClasses(ms: seq<Member>) {
    forall m | m in ms :: Flat(m.type_)
  }

  lemma {:induction false} UnalignedIsReal(ms: seq<Member>)
    requires AllRegular(ms) && NoClasses(ms) && AnyUnaligned(ms)
    ensures AnyMemberUnaligned(ms, 0)
    decreases ms
  {
    var m := ms[0];
    assert m in ms;
    if UnalignedField(m) {
      FlatIsAligned(m.type_);
      FlatUnaligned(m.type_, 0 + Offset(m));
    } else {
      assert forall x | x in ms[1..] :: x in ms;
      UnalignedIsReal(ms[1..]);
    }
  }

  /**
    In a class of scalars and arrays the program finds an unaligned field exactly
    if there is one; with nested classes it misses none.
   */
  lemma UnalignedIff(t: Type)
    requires t.Record? && Regular(t)
    ensures Unaligned(t, 0) ==> HasUnalignedFields(t)
    ensures NoClasses(t.members) ==> (HasUnalignedFields(t) <==> Unaligned(t, 0))
  {
    RegularAlignment(t);
    if !HasUnalignedFields(t) {
      AlignedIsFound(t, 0);
    } else if NoClasses(t.members) {
      UnalignedIsReal(t.members);
    }
  }
}
