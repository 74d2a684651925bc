/**
  The classes that section 3.2.3 of the System V AMD64 ABI itself gives a small
  class, found scalar by scalar, and when gsdb::type agrees with them.
 */
module AbiClasses {
  import opened Options
  import opened ParameterClasses

  /** A reference is stored as a pointer, whatever size its entry declares. */
  function StoredSize(t: Type): nat {
    match t
    case Reference(_, _) => 8
    case Array(element, length) => StoredSize(element) * length
    case Alias(target, _) => StoredSize(target)
    case _ => ByteSize(t)
  }

  /** The class of a scalar other than long double. */
  function ScalarClass(t: Type): Class {
    if t.Base? && (t.encoding == Float || t.encoding == ComplexFloat) then Sse else Integer
  }

  /** Some of the bytes at .. at + size lie in the eightbyte. */
  predicate Touches(at: nat, size: nat, e: nat) {
    size > 0 && at < 8 * e + 8 && 8 * e < at + size
  }

  function Touched(at: nat, size: nat): set<nat> {
    set e: nat | e <= at + size && Touches(at, size, e)
  }

  /** Every scalar of the type contributes its class to the eightbytes its own bytes lie in. */
  function Leaves(t: Type, at: nat): set<(nat, Class)>
    decreases t, 1
  {
    match t
    case Record(_, _, _, members) => LeavesOfMembers(members, at)
    case Array(element, length) => LeavesOfElements(element, length, at)
    case Alias(target, _) => Leaves(target, at)
    case _ => set e | e in Touched(at, StoredSize(t)) :: (e, ScalarClass(t))
  }

  function LeavesOfElements(t: Type, length: nat, at: nat): set<(nat, Class)>
    decreases t, 2 + length
  {
    if length == 0 then {} else Leaves(t, at) + LeavesOfElements(t, length - 1, at + StoredSize(t))
  }

  function LeavesOfMembers(ms: seq<Member>, at: nat): set<(nat, Class)>
    decreases ms, 0
  {
    if ms == [] then {} else LeavesOfMember(ms[0], at) + LeavesOfMembers(ms[1..], at)
  }

  function LeavesOfMember(m: Member, at: nat): set<(nat, Class)>
    decreases m, 2
  {
    Leaves(m.type_, at + Offset(m))
  }

  /** A scalar is aligned to its size, a complex number to that of its parts. */
  function NaturalAlignment(t: Type): nat {
    if t.Base? && t.encoding == ComplexFloat then StoredSize(t) / 2 else StoredSize(t)
  }

  /** A scalar of the type is not where its alignment asks. */
  predicate Unaligned(t: Type, at: nat)
    decreases t, 1
  {
    match t
    case Record(_, _, _, members) => AnyMemberUnaligned(members, at)
    case Array(element, length) => AnyElementUnaligned(element, length, at)
    case Alias(target, _) => Unaligned(target, at)
    case _ => NaturalAlignment(t) != 0 && at % NaturalAlignment(t) != 0
  }

  predicate AnyElementUnaligned(t: Type, length: nat, at: nat)
    decreases t, 2 + length
  {
    length > 0 && (Unaligned(t, at) || AnyElementUnaligned(t, length - 1, at + StoredSize(t)))
  }

  predicate AnyMemberUnaligned(ms: seq<Member>, at: nat)
    decreases ms, 0
  {
    ms != [] && (MemberUnaligned(ms[0], at) || AnyMemberUnaligned(ms[1..], at))
  }

  predicate MemberUnaligned(m: Member, at: nat)
    decreases m, 2
  {
    Unaligned(m.type_, at + Offset(m))
  }

  /** A class that is non-trivial for calls, or has such a member or base, is passed by invisible reference. */
  predicate ByReference(t: Type)
    decreases t, 1
  {
    match t
    case Record(_, irregular, copies, members) => irregular || copies || AnyByReference(members)
    case Array(element, _) => ByReference(element)
    case Alias(target, _) => ByReference(target)
    case _ => false
  }

  predicate AnyByReference(ms: seq<Member>)
    decreases ms, 0
  {
    ms != [] && (MemberByReference(ms[0]) || AnyByReference(ms[1..]))
  }

  predicate MemberByReference(m: Member)
    decreases m, 2
  {
    ByReference(m.type_)
  }

  /** The ABI's classes of a class that is passed by value. */
  function AbiClassesOf(t: Type): Option<Classes> {
    if ByReference(t) then None
    else if ByteSize(t) > 16 || Unaligned(t, 0) then Some(Classes(InMemory, InMemory))
    else Some(Classes(Strongest(Leaves(t, 0), 0), Strongest(Leaves(t, 0), 1)))
  }

  /** What the program refuses as non-trivial is passed by reference. */
  lemma {:induction false} NonTrivialIsByReference(t: Type)
    ensures NonTrivial(t) ==> ByReference(t)
    decreases t, 1
  {
    match t {
      case Record(_, _, _, members) => NonTrivialMembers(members);
      case Array(element, _) => NonTrivialIsByReference(element);
      case Alias(target, ownName) => NonTrivialBehindAlias(target, ownName);
      case _ =>
    }
  }

  lemma {:induction false} NonTrivialBehindAlias(t: Type, ownName: bool)
    ensures NonTrivialBehind(t, ownName) ==> ByReference(t)
    decreases t, 1
  {
    match t {
      case Record(_, _, _, members) => NonTrivialMembers(members);
      case Array(element, _) => NonTrivialIsByReference(element);
      case Alias(target, _) => NonTrivialBehindAlias(target, ownName);
      case _ =>
    }
  }

  lemma {:induction false} NonTrivialMembers(ms: seq<Member>)
    ensures AnyNonTrivial(ms) ==> AnyByReference(ms)
    decreases ms, 0
  {
    if ms != [] {
      NonTrivialMember(ms[0]);
      NonTrivialMembers(ms[1..]);
    }
  }

  lemma {:induction false} NonTrivialMember(m: Member)
    ensures MemberNonTrivial(m) ==> MemberByReference(m)
    decreases m, 2
  {
    NonTrivialIsByReference(m.type_);
  }

  lemma {:induction false} LeavesAreRegisters(t: Type, at: nat)
    ensures forall x | x in Leaves(t, at) :: x.1 == Integer || x.1 == Sse
    decreases t, 1
  {
    match t {
      case Record(_, _, _, members) => MembersAreRegisters(members, at);
      case Array(element, length) => ElementsAreRegisters(element, length, at);
      case Alias(target, _) => LeavesAreRegisters(target, at);
      case _ =>
    }
  }

  lemma {:induction false} ElementsAreRegisters(t: Type, length: nat, at: nat)
    ensures forall x | x in LeavesOfElements(t, length, at) :: x.1 == Integer || x.1 == Sse
    decreases t, 2 + length
  {
    if length > 0 {
      LeavesAreRegisters(t, at);
      ElementsAreRegisters(t, length - 1, at + StoredSize(t));
    }
  }

  lemma {:induction false} MembersAreRegisters(ms: seq<Member>, at: nat)
    ensures forall x | x in LeavesOfMembers(ms, at) :: x.1 == Integer || x.1 == Sse
    decreases ms, 0
  {
    if ms != [] {
      MemberIsRegisters(ms[0], at);
      MembersAreRegisters(ms[1..], at);
    }
  }

  lemma {:induction false} MemberIsRegisters(m: Member, at: nat)
    ensures forall x | x in LeavesOfMember(m, at) :: x.1 == Integer || x.1 == Sse
    decreases m, 2
  {
    LeavesAreRegisters(m.type_, at + Offset(m));
  }

  // ---- what the program counts ----

  /**
    The eightbytes in which the program counts the scalars of what it takes to be
    at `at`: each where it starts; those of an array's element as if the element
    started the eightbyte, and in the second eightbyte as well if the array has more
    than eight bytes and nothing of its element is there.  It does not count
    enumerations, pointers to members, integers of 16 bytes, members without a
    location, base classes, and classes and arrays behind a typedef or qualifier.
   */
  function Counted(t: Type, at: nat): set<(nat, Class)>
    decreases t, 1
  {
    match t
    case Base(_, size) => if size <= 8 then {(at / 8, ScalarClass(t))} else {}
    case Record(_, _, _, members) => CountedOfMembers(members, at)
    case Array(element, _) => CountedOfArray(Counted(element, 0), ByteSize(t), at)
    case Other(_) => {}
    case Alias(target, _) => if IsAggregate(t) then {} else Counted(target, at)
    case _ => {(at / 8, Integer)}
  }

  function CountedOfArray(own: set<(nat, Class)>, size: nat, at: nat): set<(nat, Class)> {
    Moved(own, at / 8) + if size > 8 && at < 8 && !HasSecond(own) then Moved(First(own), 1) else {}
  }

  function Moved(s: set<(nat, Class)>, n: nat): set<(nat, Class)> {
    set x | x in s :: (x.0 + n, x.1)
  }

  function First(s: set<(nat, Class)>): set<(nat, Class)> {
    set x | x in s && x.0 == 0
  }

  predicate HasSecond(s: set<(nat, Class)>) {
    exists x | x in s :: x.0 == 1
  }

  function CountedOfMembers(ms: seq<Member>, at: nat): set<(nat, Class)>
    decreases ms, 0
  {
    if ms == [] then {} else CountedOfMember(ms[0], at) + CountedOfMembers(ms[1..], at)
  }

  function CountedOfMember(m: Member, at: nat): set<(nat, Class)>
    decreases m, 2
  {
    if Visible(m) then Counted(m.type_, at + CountedOffset(m)) else {}
  }

  /** The program passes the type in memory. */
  predicate ToMemory(t: Type)
    decreases t, 1
  {
    match t
    case Record(size, _, _, members) => size > 16 || HasUnalignedFields(t) || AnyToMemory(members)
    case Array(element, _) => ByteSize(t) > 16 || ToMemory(element)
    case Alias(_, _) => IsAggregate(t) && (ByteSize(t) > 16 || HasUnalignedFields(t))
    case _ => false
  }

  predicate AnyToMemory(ms: seq<Member>)
    decreases ms, 0
  {
    ms != [] && (MemberToMemory(ms[0]) || AnyToMemory(ms[1..]))
  }

  predicate MemberToMemory(m: Member)
    decreases m, 2
  {
    Visible(m) &&
    if m.type_.Record? then AnyToMemory(m.type_.members) else !IsClass(m.type_) && ToMemory(m.type_)
  }

  // ---- the program's classes ----

  /** Nothing but register classes. */
  predicate InRegisters(s: set<(nat, Class)>) {
    forall x | x in s :: x.1 == Integer || x.1 == Sse
  }

  lemma {:induction false} CountedIsInRegisters(t: Type, at: nat)
    ensures InRegisters(Counted(t, at))
    decreases t, 1
  {
    match t {
      case Record(_, _, _, members) => CountedMembersInRegisters(members, at);
      case Array(element, _) => CountedIsInRegisters(element, 0);
      case Alias(target, _) => CountedIsInRegisters(target, at);
      case _ =>
    }
  }

  lemma {:induction false} CountedMembersInRegisters(ms: seq<Member>, at: nat)
    ensures InRegisters(CountedOfMembers(ms, at))
    decreases ms, 0
  {
    if ms != [] {
      CountedMemberInRegisters(ms[0], at);
      CountedMembersInRegisters(ms[1..], at);
    }
  }

  lemma {:induction false} CountedMemberInRegisters(m: Member, at: nat)
    ensures InRegisters(CountedOfMember(m, at))
    decreases m, 2
  {
    CountedIsInRegisters(m.type_, at + CountedOffset(m));
  }

  /** The classes that are counted for a type on its own. */
  function CountedClasses(t: Type): Classes {
    Classes(Strongest(Counted(t, 0), 0), Strongest(Counted(t, 0), 1))
  }

  lemma ArrayCounts(own: set<(nat, Class)>, size: nat, at: nat)
    requires InRegisters(own) && at < 16
    ensures var s := CountedOfArray(own, size, at);
            && Strongest(s, at / 8) == Strongest(own, 0)
            && (at >= 8 ==> Strongest(s, 0) == NoClass)
    ensures var s, dup := CountedOfArray(own, size, at), size > 8 && Strongest(own, 1) == NoClass;
            at < 8 ==> Strongest(s, 1) == (if dup then Strongest(own, 0) else Strongest(own, 1))
  {
    assert forall k :: (at / 8, k) in CountedOfArray(own, size, at) <==> (0, k) in own;
    if at < 8 {
      assert HasSecond(own) <==> Strongest(own, 1) != NoClass;
      assert forall k :: (1, k) in Moved(own, 0) <==> (1, k) in own;
      assert forall k :: (1, k) in Moved(First(own), 1) <==> (0, k) in own;
    } else {
      assert forall k :: (0, k) !in CountedOfArray(own, size, at);
    }
  }

  /** What is not a class counts by the eightbyte in which it is taken to start. */
  lemma {:induction false} CountedMoves(t: Type, at: nat)
    requires !IsClass(t) && at < 16
    ensures Strongest(Counted(t, at), at / 8) == CountedClasses(t).first
    ensures at < 8 ==> Strongest(Counted(t, at), 1) == CountedClasses(t).second
    ensures at >= 8 ==> Strongest(Counted(t, at), 0) == NoClass
  {
    if t.Alias? {
      CountedMoves(t.target, at);
    } else if t.Array? {
      CountedIsInRegisters(t.element, 0);
      ArrayCounts(Counted(t.element, 0), ByteSize(t), at);
      ArrayCounts(Counted(t.element, 0), ByteSize(t), 0);
    }
  }

  lemma ScalarBehindAlias(t: Type)
    requires t.Alias? && !IsAggregate(t)
    ensures !ToMemory(t) && !ToMemory(t.target) && CountedClasses(t) == CountedClasses(t.target)
  {
    assert Stripped(t.target) == Stripped(t);
  }

  /** The program's classes of a type are the strongest that it counts, or memory. */
  lemma {:induction false} CodeClasses(t: Type)
    requires X87Free(t) && Classify(t).Some?
    ensures Classify(t).value == if ToMemory(t) then Classes(InMemory, InMemory) else CountedClasses(t)
    decreases t, 1
  {
    match t {
      case Record(size, _, _, members) =>
        if size <= 16 && !HasUnalignedFields(t) {
          MembersCount(members, 0, Classes(NoClass, NoClass));
          RecordClasses(t);
        }
      case Array(element, _) =>
        if ByteSize(t) <= 16 {
          CodeClasses(element);
          CountedIsInRegisters(element, 0);
          ArrayCounts(Counted(element, 0), ByteSize(t), 0);
        }
      case Alias(target, _) =>
        if !IsAggregate(t) {
          CodeClasses(target);
          ScalarBehindAlias(t);
        }
      case _ =>
    }
  }

  predicate AnyInMemory(s: set<(nat, Class)>) {
    (0, InMemory) in s || (1, InMemory) in s
  }

  /** Two sets with the same strongest classes, memory apart. */
  predicate SameStrongest(s: set<(nat, Class)>, s': set<(nat, Class)>) {
    Strongest(s, 0) == Strongest(s', 0) && Strongest(s, 1) == Strongest(s', 1)
  }

  lemma UnionStrongest(a: set<(nat, Class)>, a': set<(nat, Class)>, b: set<(nat, Class)>, b': set<(nat, Class)>)
    requires SameStrongest(a, a') && SameStrongest(b, b')
    ensures SameStrongest(a + b, a' + b')
  {
  }

  lemma {:induction false} MembersCount(ms: seq<Member>, at: nat, c: Classes)
    requires AllX87Free(ms) && ClassifyMembers(ms, at, c).Some?
    ensures AnyInMemory(Contributions(ms, at)) <==> AnyToMemory(ms)
    ensures !AnyToMemory(ms) ==> SameStrongest(Contributions(ms, at), CountedOfMembers(ms, at))
    decreases ms, 0
  {
    if ms != [] {
      MemberCounts(ms[0], at, c);
      MembersCount(ms[1..], at, ClassifyMember(ms[0], at, c).value);
      if !AnyToMemory(ms) {
        UnionStrongest(Contribution(ms[0], at), CountedOfMember(ms[0], at),
                       Contributions(ms[1..], at), CountedOfMembers(ms[1..], at));
      }
    }
  }

  lemma {:induction false} MemberCounts(m: Member, at: nat, c: Classes)
    requires X87Free(m.type_) && ClassifyMember(m, at, c).Some?
    ensures AnyInMemory(Contribution(m, at)) <==> MemberToMemory(m)
    ensures !MemberToMemory(m) ==> SameStrongest(Contribution(m, at), CountedOfMember(m, at))
    decreases m, 2
  {
    if Visible(m) {
      if m.type_.Record? {
        MembersCount(m.type_.members, at + CountedOffset(m), c);
      } else if !IsClass(m.type_) {
        CodeClasses(m.type_);
        CountedIsInRegisters(m.type_, 0);
        CountedMoves(m.type_, at + CountedOffset(m));
      }
    }
  }

  // ---- where the program and the ABI agree ----

  function Rank(c: Class): nat {
    match c
    case Sse => 1
    case Integer => 2
    case InMemory => 3
    case _ => 0
  }

  /** A class at least as strong is in the eightbyte. */
  ghost predicate Matched(s: set<(nat, Class)>, e: nat, k: Class) {
    exists k' :: (e, k') in s && Rank(k') >= Rank(k)
  }

  /**
    For each scalar with bytes in eightbyte e one at least as strong is counted
    there, and for each that is counted there one at least as strong has bytes in it.
   */
  ghost predicate Balanced(t: Type, e: nat) {
    && (forall k | (e, k) in Leaves(t, 0) :: Matched(Counted(t, 0), e, k))
    && (forall k | (e, k) in Counted(t, 0) :: Matched(Leaves(t, 0), e, k))
  }

  lemma StrongestIffMatched(s: set<(nat, Class)>, s': set<(nat, Class)>, e: nat)
    requires InRegisters(s) && InRegisters(s')
    ensures Strongest(s, e) == Strongest(s', e) <==>
            && (forall k | (e, k) in s :: Matched(s', e, k))
            && (forall k | (e, k) in s' :: Matched(s, e, k))
  {
    if Strongest(s, e) == Strongest(s', e) {
      forall k | (e, k) in s ensures Matched(s', e, k) {
        assert (e, Strongest(s', e)) in s';
      }
      forall k | (e, k) in s' ensures Matched(s, e, k) {
        assert (e, Strongest(s, e)) in s;
      }
    }
  }

  /**
    A class that the program classifies gets the ABI's classes if and only if it is
    not passed by reference, and it is larger than two eightbytes, or it has
    unaligned scalars and goes to memory, or neither and, in each eightbyte, what
    the program counts there and what has bytes there are equally strong.  Both are found from the offsets and
    sizes of the scalars, nested classes and arrays of classes included, and from
    where typedefs and qualifiers, base classes and members without a location stand.
   */
  lemma HasAbiClassesIff(t: Type)
    requires IsClass(t) && X87Free(t) && Classify(t).Some?
    ensures Classify(t) == AbiClassesOf(t) <==>
            && !ByReference(t)
            && (|| ByteSize(t) > 16
                || (ToMemory(t) && Unaligned(t, 0))
                || (!ToMemory(t) && !Unaligned(t, 0) && Balanced(t, 0) && Balanced(t, 1)))
  {
    CodeClasses(t);
    LeavesAreRegisters(t, 0);
    CountedIsInRegisters(t, 0);
    StrongestIffMatched(Leaves(t, 0), Counted(t, 0), 0);
    StrongestIffMatched(Leaves(t, 0), Counted(t, 0), 1);
    if t.Alias? {
      AliasIsTransparent(t);
    }
  }

  /** Behind a typedef or qualifier a class gets the ABI's classes only if it has no data or goes to memory. */
  lemma AliasedClassIff(t: Type)
    requires t.Alias? && IsAggregate(t) && Classify(t).Some? && !ByReference(t) && !ToMemory(t) && !Unaligned(t, 0)
    ensures Classify(t) == AbiClassesOf(t) <==> forall x | x in Leaves(t, 0) :: x.0 > 1
  {
    LeavesAreRegisters(t, 0);
    NothingThere(Leaves(t, 0));
  }

  lemma NothingThere(s: set<(nat, Class)>)
    requires InRegisters(s)
    ensures Strongest(s, 0) == NoClass && Strongest(s, 1) == NoClass <==> forall x | x in s :: x.0 > 1
  {
    forall x | x in s && x.0 <= 1 ensures Strongest(s, x.0) != NoClass {
      assert x == (x.0, x.1);
    }
  }

  // ---- scalars and arrays of scalars ----

  /** A scalar, or an array of any dimension of scalars that are stored as they are sized, aliases seen through. */
  predicate Flat(t: Type) {
    match t
    case Record(_, _, _, _) => false
    case Array(element, _) => !IsReference(element) && ByteSize(element) <= 16 && Flat(element)
    case Alias(target, _) => Flat(target)
    case _ => true
  }

  /** The scalar that a flat type is made of. */
  function ScalarOf(t: Type): Type {
    match t
    case Array(element, _) => ScalarOf(element)
    case Alias(target, _) => ScalarOf(target)
    case _ => t
  }

  /** An array stands behind a typedef or qualifier. */
  predicate HiddenArray(t: Type) {
    match t
    case Array(element, _) => HiddenArray(element)
    case Alias(target, _) => Stripped(target).Array?
    case _ => false
  }

  /**
    The program gives the flat type no class: enumerations, pointers to members,
    integers of 16 bytes, and arrays behind a typedef or qualifier.
   */
  predicate Unclassified(t: Type) {
    HiddenArray(t) || ScalarOf(t).Other? || (ScalarOf(t).Base? && ScalarOf(t).size > 8)
  }

  /** The program gives the array a second class: it, or what it is made of, has more than eight bytes. */
  predicate SecondCounted(t: Type) {
    t.Array? && (ByteSize(t) > 8 || SecondCounted(t.element))
  }

  /** Where the program counts an array of scalars, from its offset and size. */
  lemma {:induction false} FlatCounted(t: Type, at: nat)
    requires Flat(t) && X87Free(t)
    ensures forall e: nat, k | e <= 1 ::
              (e, k) in Counted(t, at) <==>
              && !Unclassified(t) && k == ScalarClass(ScalarOf(t))
              && (e == at / 8 || (e == 1 && at < 8 && SecondCounted(t)))
  {
    if t.Array? {
      FlatCounted(t.element, 0);
      var own := Counted(t.element, 0);
      forall e: nat, k | e <= 1
        ensures (e, k) in Moved(own, at / 8) <==> e >= at / 8 && (e - at / 8, k) in own
        ensures (e, k) in Moved(First(own), 1) <==> e == 1 && (0, k) in own
      {
        MovedIff(own, at / 8, e, k);
        MovedIff(First(own), 1, e, k);
      }
    } else if t.Alias? {
      FlatIsNoClass(t);
      if !IsAggregate(t) {
        FlatCounted(t.target, at);
      }
    }
  }

  lemma MovedIff(s: set<(nat, Class)>, n: nat, e: nat, k: Class)
    ensures (e, k) in Moved(s, n) <==> e >= n && (e - n, k) in s
  {
    if e >= n && (e - n, k) in s {
      var x := (e - n, k);
      assert x in s && (x.0 + n, x.1) == (e, k);
    }
  }

  lemma {:induction false} FlatIsNoClass(t: Type)
    requires Flat(t)
    ensures !IsClass(t) && (!Stripped(t).Array? ==> ScalarOf(t) == Stripped(t))
  {
    if t.Alias? {
      FlatIsNoClass(t.target);
    }
  }

  /** An array with bytes is counted twice exactly if it has more than eight. */
  lemma {:induction false} SecondCountedIff(t: Type)
    requires ByteSize(t) > 0
    ensures SecondCounted(t) <==> t.Array? && ByteSize(t) > 8
  {
    if t.Array? {
      ProductBounds(ByteSize(t.element), t.length);
      SecondCountedIff(t.element);
    }
  }

  lemma ProductBounds(a: nat, n: nat)
    ensures if a == 0 || n == 0 then a * n == 0 else a * n >= a
  {
    if a > 0 && n > 0 {
      assert a * n == a + a * (n - 1);
    }
  }

  lemma TouchedSplit(at: nat, a: nat, b: nat)
    ensures Touched(at, a) + Touched(at + a, b) == Touched(at, a + b)
  {
    assert forall e: nat :: Touches(at, a + b, e) <==> Touches(at, a, e) || Touches(at + a, b, e);
  }

  lemma OneMoreElement(size: nat, length: nat)
    requires length > 0
    ensures size * length == size + size * (length - 1)
  {
  }

  lemma {:induction false} ElementsTouch(t: Type, length: nat, at: nat)
    requires Flat(t) && !IsReference(t)
    ensures LeavesOfElements(t, length, at)
            == set e | e in Touched(at, StoredSize(t) * length) :: (e, ScalarClass(ScalarOf(t)))
    decreases t, 2 + length
  {
    if length > 0 {
      FlatTouches(t, at);
      ElementsTouch(t, length - 1, at + StoredSize(t));
      OneMoreElement(StoredSize(t), length);
      TouchedSplit(at, StoredSize(t), StoredSize(t) * (length - 1));
    } else {
      assert StoredSize(t) * length == 0;
    }
  }

  /** The scalars of a flat type cover its bytes without a gap, all with one class. */
  lemma {:induction false} FlatTouches(t: Type, at: nat)
    requires Flat(t)
    ensures Leaves(t, at) == set e | e in Touched(at, StoredSize(t)) :: (e, ScalarClass(ScalarOf(t)))
    decreases t, 1
  {
    if t.Array? {
      ElementsTouch(t.element, t.length, at);
    } else if t.Alias? {
      FlatTouches(t.target, at);
    }
  }

  lemma {:induction false} FlatSize(t: Type)
    requires Flat(t) && !IsReference(t)
    ensures StoredSize(t) == ByteSize(t)
  {
    if t.Array? {
      FlatSize(t.element);
    } else if t.Alias? {
      FlatSize(t.target);
    }
  }

  lemma TouchedIff(at: nat, size: nat, e: nat)
    ensures e in Touched(at, size) <==> Touches(at, size, e)
  {
  }

  /**
    A scalar or an array of scalars that the program takes to be where it is has
    bytes in an eightbyte and is not counted there exactly if it gets no class, or
    if it starts in the first eightbyte, is no array of more than eight bytes and
    reaches into the second.  It is counted without having bytes there only if it
    has none.
   */
  lemma FlatFieldIff(t: Type, at: nat, e: nat)
    requires Flat(t) && X87Free(t) && e <= 1
    ensures var x := (e, ScalarClass(ScalarOf(t)));
            && (x in Leaves(t, at) && x !in Counted(t, at) <==>
                && Touches(at, StoredSize(t), e)
                && (Unclassified(t) || (e == 1 && at < 8 && !(t.Array? && ByteSize(t) > 8))))
            && (x in Counted(t, at) && x !in Leaves(t, at) <==> StoredSize(t) == 0 && x in Counted(t, at))
  {
    FlatCounted(t, at);
    FlatTouches(t, at);
    TouchedIff(at, StoredSize(t), e);
    if !IsReference(t) {
      FlatSize(t);
    }
    if ByteSize(t) > 0 {
      SecondCountedIff(t);
    }
  }
}
