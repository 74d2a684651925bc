/**
  Which bytes of an argument the callee finds again: on the stack those that no
  later argument is written over, in registers those of the eightbytes that have
  a register class.
 */
module CallArrival {
  import opened Options
  import opened Memory
  import opened ParameterClasses
  import opened CallLayout
  import opened StackArrival
  import opened AbiClasses
  import opened MisclassifiedTypes

  /** Eightbyte j of the parameter goes in a register. */
  predicate Carried(p: Param, j: nat) {
    Occupies(p, j, Integer) || Occupies(p, j, Sse)
  }

  /** A callee finds the same in all registers and in memory, m being the memory before the call. */
  ghost predicate SameFound(c: Call, m: Space, data: seq<seq<Byte>>, data': seq<seq<Byte>>)
    requires Valid(c) && |data| == |data'| == |c.params|
  {
    var n := |c.params|;
    && RegisterValues(c, data, n, Integer) == RegisterValues(c, data', n, Integer)
    && RegisterValues(c, data, n, Sse) == RegisterValues(c, data', n, Sse)
    && RspFor(c, data) == RspFor(c, data') && Written(m, WritesFor(c, data)) == Written(m, WritesFor(c, data'))
  }

  predicate AgreeOn(a: seq<Byte>, b: seq<Byte>, bytes: set<nat>) {
    |a| == |b| && forall k | 0 <= k < |a| && k in bytes :: a[k] == b[k]
  }

  /** What parameter i with these bytes adds to the registers of class k. */
  function Added(c: Call, i: nat, bytes: seq<Byte>, k: Class): seq<Register>
    requires Valid(c) && i < |c.params|
  {
    if OnStack(c, i) then [] else Words(c.params[i], bytes, k)
  }

  lemma OneMore(c: Call, data: seq<seq<Byte>>, n: nat, k: Class)
    requires Valid(c) && 0 < n <= |c.params| == |data|
    ensures RegisterValues(c, data, n, k) == RegisterValues(c, data, n - 1, k) + Added(c, n - 1, data[n - 1], k)
  {
  }

  lemma {:induction false} AddedDecides(c: Call, data: seq<seq<Byte>>, data': seq<seq<Byte>>, n: nat, k: Class)
    requires Valid(c) && n <= |c.params| == |data| == |data'|
    requires forall j | 0 <= j < n :: Added(c, j, data'[j], k) == Added(c, j, data[j], k)
    ensures RegisterValues(c, data', n, k) == RegisterValues(c, data, n, k)
  {
    if n > 0 {
      AddedDecides(c, data, data', n - 1, k);
      OneMore(c, data, n, k);
      OneMore(c, data', n, k);
    }
  }

  /** Another value for argument i does not show in what is placed for the others. */
  lemma OthersSame(c: Call, data: seq<seq<Byte>>, i: nat, d: seq<Byte>, n: nat, k: Class)
    requires Valid(c) && i < |c.params| == |data| && n <= |c.params|
    requires n <= i || OnStack(c, i) || Words(c.params[i], d, k) == Words(c.params[i], data[i], k)
    ensures RegisterValues(c, data[i := d], n, k) == RegisterValues(c, data, n, k)
  {
    forall j | 0 <= j < n ensures Added(c, j, data[i := d][j], k) == Added(c, j, data[j], k) {
      assert j != i ==> data[i := d][j] == data[j];
    }
    AddedDecides(c, data, data[i := d], n, k);
  }

  lemma SameSuffix<T>(a: seq<T>, b: seq<T>, x: seq<T>, y: seq<T>, all: seq<T>)
    requires a + x <= all && b + y <= all && a == b && |x| == |y|
    ensures x == y
  {
    assert forall k | 0 <= k < |x| :: x[k] == (a + x)[|a| + k] == all[|a| + k];
    assert forall k | 0 <= k < |y| :: y[k] == (b + y)[|b| + k] == all[|b| + k];
  }

  /** A stack byte that is not overwritten is found. */
  lemma StackArrives(c: Call, m: Space, data: seq<seq<Byte>>, i: nat, d: seq<Byte>, b: nat)
    requires Valid(c) && i < |c.params| == |data| && OnStack(c, i) && Reachable(c, m, data)
    requires |d| == |data[i]| && b < |d| && !Overwritten(c, data, i, b) && SameFound(c, m, data, data[i := d])
    ensures d[b] == data[i][b]
  {
    var ws, at, x := WritesFor(c, data), WriteIndex(c, data, i), SlotFor(c, data, i) + b;
    OwnWrite(c, data, i);
    assert Mapped(m, ws[at].at, |ws[at].data|);
    OverwrittenIff(c, data, i, b);
    ChangedWrites(c, data, i, d);
    ChangeShows(m, ws, WritesFor(c, data[i := d]), at, x);
  }

  /** There is room for the call, and memory to write it to. */
  ghost predicate Reachable(c: Call, m: Space, data: seq<seq<Byte>>)
    requires Valid(c) && |data| == |c.params|
  {
    RoomFor(c, data) && DataMapped(m, WritesFor(c, data))
  }

  /** The words of a register argument are found. */
  lemma WordsArrive(c: Call, data: seq<seq<Byte>>, i: nat, d: seq<Byte>, k: Class)
    requires Valid(c) && i < |c.params| == |data| && !OnStack(c, i)
    requires RegisterValues(c, data[i := d], |c.params|, k) == RegisterValues(c, data, |c.params|, k)
    ensures Words(c.params[i], d, k) == Words(c.params[i], data[i], k)
  {
    var n, data' := |c.params|, data[i := d];
    OthersSame(c, data, i, d, i, k);
    RegisterValuesGrow(c, data, i + 1, n, k);
    RegisterValuesGrow(c, data', i + 1, n, k);
    SameSuffix(RegisterValues(c, data, i, k), RegisterValues(c, data', i, k),
               Words(c.params[i], data[i], k), Words(c.params[i], d, k), RegisterValues(c, data, n, k));
  }

  lemma WordsGiveEightbyte(p: Param, a: seq<Byte>, b: seq<Byte>, k: Class, j: nat)
    requires j <= 1 && Occupies(p, j, k) && Words(p, a, k) == Words(p, b, k)
    ensures Eightbyte(a, j) == Eightbyte(b, j)
  {
    var at := if j == 1 && Occupies(p, 0, k) then 1 else 0;
    assert Words(p, a, k)[at] == Eightbyte(a, j) && Words(p, b, k)[at] == Eightbyte(b, j);
  }

  lemma EightbyteGivesByte(a: seq<Byte>, b: seq<Byte>, k: nat)
    requires |a| == |b| && k < |a| && Eightbyte(a, k / 8) == Eightbyte(b, k / 8)
    ensures a[k] == b[k]
  {
    EightbyteBytes(a, k / 8);
    EightbyteBytes(b, k / 8);
    assert Eightbyte(a, k / 8).bytes[k % 8] == a[k] && Eightbyte(b, k / 8).bytes[k % 8] == b[k];
  }

  /** Every carried byte of a register argument is found. */
  lemma CarriedArrives(c: Call, m: Space, data: seq<seq<Byte>>, i: nat, d: seq<Byte>, b: nat)
    requires Valid(c) && i < |c.params| == |data| && !OnStack(c, i) && Supported(c.params[i])
    requires |d| == |data[i]| && b < |d| && Carried(c.params[i], b / 8) && SameFound(c, m, data, data[i := d])
    ensures d[b] == data[i][b]
  {
    var p := c.params[i];
    var k := if Occupies(p, b / 8, Integer) then Integer else Sse;
    WordsArrive(c, data, i, d, k);
    WordsGiveEightbyte(p, d, data[i], k, b / 8);
    EightbyteGivesByte(d, data[i], b);
  }

  lemma OtherEightbytes(d: seq<Byte>, b: nat, x: Byte, j: nat)
    requires b < |d| && j != b / 8
    ensures Eightbyte(WithByte(d, b, x), j) == Eightbyte(d, j)
  {
    EightbyteBytes(d, j);
    EightbyteBytes(WithByte(d, b, x), j);
  }

  /** A byte that is not carried can be changed, and nothing the callee finds changes. */
  lemma NotCarriedIsLost(c: Call, m: Space, data: seq<seq<Byte>>, i: nat, b: nat, x: Byte)
    requires Valid(c) && i < |c.params| == |data| && !OnStack(c, i) && b < |data[i]| && !Carried(c.params[i], b / 8)
    ensures SameFound(c, m, data, data[i := WithByte(data[i], b, x)])
  {
    var p, d := c.params[i], WithByte(data[i], b, x);
    forall j: nat | j <= 1 && Carried(p, j) ensures Eightbyte(d, j) == Eightbyte(data[i], j) {
      OtherEightbytes(data[i], b, x, j);
    }
    assert Carried(p, 0) ==> Eightbyte(d, 0) == Eightbyte(data[i], 0);
    assert Carried(p, 1) ==> Eightbyte(d, 1) == Eightbyte(data[i], 1);
    assert Words(p, d, Integer) == Words(p, data[i], Integer) && Words(p, d, Sse) == Words(p, data[i], Sse);
    OthersSame(c, data, i, d, |c.params|, Integer);
    OthersSame(c, data, i, d, |c.params|, Sse);
    StackArgsSame(c, data, i, d, |c.params|);
  }

  /** Byte b of argument i is passed: on the stack in a place of its own, otherwise in a register. */
  ghost predicate Survives(c: Call, data: seq<seq<Byte>>, i: nat, b: nat)
    requires Valid(c) && i < |c.params| == |data|
  {
    if OnStack(c, i) then !Overwritten(c, data, i, b) else Carried(c.params[i], b / 8)
  }

  ghost predicate AllSurvive(c: Call, data: seq<seq<Byte>>, i: nat, bytes: set<nat>)
    requires Valid(c) && i < |c.params| == |data|
  {
    forall b | b in bytes && b < |data[i]| :: Survives(c, data, i, b)
  }

  lemma SurvivingArrives(c: Call, m: Space, data: seq<seq<Byte>>, i: nat, d: seq<Byte>, b: nat)
    requires Valid(c) && i < |c.params| == |data| && (if OnStack(c, i) then Reachable(c, m, data) else Supported(c.params[i]))
    requires |d| == |data[i]| && b < |d| && Survives(c, data, i, b) && SameFound(c, m, data, data[i := d])
    ensures d[b] == data[i][b]
  {
    if OnStack(c, i) {
      StackArrives(c, m, data, i, d, b);
    } else {
      CarriedArrives(c, m, data, i, d, b);
    }
  }

  lemma NotSurvivingIsLost(c: Call, m: Space, data: seq<seq<Byte>>, i: nat, b: nat, x: Byte)
    requires Valid(c) && i < |c.params| == |data| && (OnStack(c, i) ==> Reachable(c, m, data))
    requires b < |data[i]| && !Survives(c, data, i, b)
    ensures SameFound(c, m, data, data[i := WithByte(data[i], b, x)])
  {
    if OnStack(c, i) {
      var d := WithByte(data[i], b, x);
      OverwrittenIsLost(c, data, i, b, x, m);
      OthersSame(c, data, i, d, |c.params|, Integer);
      OthersSame(c, data, i, d, |c.params|, Sse);
    } else {
      NotCarriedIsLost(c, m, data, i, b, x);
    }
  }

  /**
    What the callee finds in registers and memory determines these bytes of
    argument i if and only if, for an argument on the stack, none of them lies
    where a later one is written, and for one in registers, each lies in an
    eightbyte that the parameter's size counts and that has class INTEGER or SSE.
   */
  lemma ArrivesIff(c: Call, m: Space, data: seq<seq<Byte>>, i: nat, bytes: set<nat>)
    requires Valid(c) && i < |c.params| == |data| && (if OnStack(c, i) then Reachable(c, m, data) else Supported(c.params[i]))
    ensures (forall d | |d| == |data[i]| && SameFound(c, m, data, data[i := d]) :: AgreeOn(d, data[i], bytes))
            <==> AllSurvive(c, data, i, bytes)
  {
    if AllSurvive(c, data, i, bytes) {
      forall d | |d| == |data[i]| && SameFound(c, m, data, data[i := d]) ensures AgreeOn(d, data[i], bytes) {
        forall b | 0 <= b < |d| && b in bytes ensures d[b] == data[i][b] {
          SurvivingArrives(c, m, data, i, d, b);
        }
      }
    } else {
      var b :| b in bytes && b < |data[i]| && !Survives(c, data, i, b);
      var x := if data[i][b] == 0 then 1 else 0;
      NotSurvivingIsLost(c, m, data, i, b, x);
      assert !AgreeOn(WithByte(data[i], b, x), data[i], bytes);
    }
  }

  // ---- bytes that belong to a field ----

  /** Byte b belongs to a scalar of a type that is stored at `at`. */
  predicate Used(t: Type, at: nat, b: nat)
    decreases t, 1
  {
    match t
    case Record(_, _, _, members) => UsedByMembers(members, at, b)
    case Array(element, length) => UsedByElements(element, length, at, b)
    case Alias(target, _) => Used(target, at, b)
    case _ => at <= b < at + StoredSize(t)
  }

  predicate UsedByElements(t: Type, length: nat, at: nat, b: nat)
    decreases t, 2 + length
  {
    length > 0 && (Used(t, at, b) || UsedByElements(t, length - 1, at + StoredSize(t), b))
  }

  predicate UsedByMembers(ms: seq<Member>, at: nat, b: nat)
    decreases ms, 0
  {
    ms != [] && (UsedByMember(ms[0], at, b) || UsedByMembers(ms[1..], at, b))
  }

  predicate UsedByMember(m: Member, at: nat, b: nat)
    decreases m, 2
  {
    Used(m.type_, at + Offset(m), b)
  }

  /** The bytes of an argument that carry data; a reference is passed as a pointer, all of which counts. */
  function FieldBytes(t: Type, n: nat): set<nat> {
    set b: nat | b < n && (IsReference(t) || Used(t, 0, b))
  }

  /** The bytes of the type that carry data are those of eightbytes with a register class, and within its size. */
  predicate FieldsCarried(t: Type, n: nat)
    requires Classify(t).Some?
  {
    forall b | b in FieldBytes(t, n) :: Carried(Describe(t), b / 8)
  }

  /** No later argument is written over a byte of argument i that carries data. */
  ghost predicate FieldsIntact(c: Call, data: seq<seq<Byte>>, i: nat, t: Type)
    requires Valid(c) && i < |c.params| == |data|
  {
    forall b | b in FieldBytes(t, |data[i]|) :: !Overwritten(c, data, i, b)
  }

  /** A parameter arrives whole if and only if its fields are carried, or on the stack if nothing is written over them. */
  lemma ParameterArrivesIff(c: Call, m: Space, data: seq<seq<Byte>>, i: nat, t: Type)
    requires Valid(c) && i < |c.params| == |data| && Classify(t).Some? && c.params[i] == Describe(t)
    requires if OnStack(c, i) then Reachable(c, m, data) else Supported(c.params[i])
    ensures (forall d | |d| == |data[i]| && SameFound(c, m, data, data[i := d]) ::
               AgreeOn(d, data[i], FieldBytes(t, |data[i]|)))
            <==> if OnStack(c, i) then FieldsIntact(c, data, i, t) else FieldsCarried(t, |data[i]|)
  {
    ArrivesIff(c, m, data, i, FieldBytes(t, |data[i]|));
  }

  lemma {:induction false} UsedHasLeaf(t: Type, at: nat, b: nat)
    ensures Used(t, at, b) ==> (b / 8, Integer) in Leaves(t, at) || (b / 8, Sse) in Leaves(t, at)
    decreases t, 1
  {
    match t {
      case Record(_, _, _, members) => MembersHaveLeaf(members, at, b);
      case Array(element, length) => ElementsHaveLeaf(element, length, at, b);
      case Alias(target, _) => UsedHasLeaf(target, at, b);
      case _ =>
        if Used(t, at, b) {
          assert Touches(at, StoredSize(t), b / 8);
          TouchedIff(at, StoredSize(t), b / 8);
        }
    }
  }

  lemma {:induction false} ElementsHaveLeaf(t: Type, length: nat, at: nat, b: nat)
    ensures UsedByElements(t, length, at, b) ==>
              (b / 8, Integer) in LeavesOfElements(t, length, at) || (b / 8, Sse) in LeavesOfElements(t, length, at)
    decreases t, 2 + length
  {
    if length > 0 {
      UsedHasLeaf(t, at, b);
      ElementsHaveLeaf(t, length - 1, at + StoredSize(t), b);
    }
  }

  lemma {:induction false} MembersHaveLeaf(ms: seq<Member>, at: nat, b: nat)
    ensures UsedByMembers(ms, at, b) ==>
              (b / 8, Integer) in LeavesOfMembers(ms, at) || (b / 8, Sse) in LeavesOfMembers(ms, at)
    decreases ms, 0
  {
    if ms != [] {
      MemberHasLeaf(ms[0], at, b);
      MembersHaveLeaf(ms[1..], at, b);
    }
  }

  lemma {:induction false} MemberHasLeaf(m: Member, at: nat, b: nat)
    ensures UsedByMember(m, at, b) ==> (b / 8, Integer) in LeavesOfMember(m, at) || (b / 8, Sse) in LeavesOfMember(m, at)
    decreases m, 2
  {
    UsedHasLeaf(m.type_, at + Offset(m), b);
  }

  /** A class with the ABI's classes arrives whole: each of its data bytes is carried. */
  lemma AbiClassesArrive(t: Type)
    requires IsClass(t) && Classify(t) == AbiClassesOf(t) && Classify(t).Some? && TakesRegisters(Classify(t).value)
    ensures FieldsCarried(t, ByteSize(t))
  {
    LeavesAreRegisters(t, 0);
    forall b | b in FieldBytes(t, ByteSize(t)) ensures Carried(Describe(t), b / 8) {
      UsedHasLeaf(t, 0, b);
      assert b / 8 == 0 || b / 8 == 1;
    }
  }

  // ---- arguments that do not arrive ----

  /** The second of the floats, which alone is in the second eightbyte, is passed nowhere. */
  lemma FloatsDoNotArrive(c: Call, m: Space, data: seq<seq<Byte>>, i: nat, x: Byte)
    requires Valid(c) && i < |c.params| == |data| && !OnStack(c, i) && |data[i]| == 12
    requires Classify(IntThenFloats()).Some? && c.params[i] == Describe(IntThenFloats())
    ensures Supported(c.params[i]) && Taken(c.params[i], Integer) == 1 && Taken(c.params[i], Sse) == 0
    ensures Used(IntThenFloats(), 0, 8) && SameFound(c, m, data, data[i := WithByte(data[i], 8, x)])
  {
    var t := IntThenFloats();
    ClassesOfIntThenFloats();
    SecondMemberUsed(t, 8);
    NotCarriedIsLost(c, m, data, i, 8, x);
  }

  lemma SecondMemberUsed(t: Type, b: nat)
    requires t.Record? && |t.members| == 2 && UsedByMember(t.members[1], 0, b)
    ensures Used(t, 0, b)
  {
    assert UsedByMembers(t.members[1..], 0, b);
  }

  /** The enumeration is passed nowhere. */
  lemma EnumDoesNotArrive(c: Call, m: Space, data: seq<seq<Byte>>, i: nat, x: Byte)
    requires Valid(c) && i < |c.params| == |data| && !OnStack(c, i) && |data[i]| == 16
    requires Classify(LongThenEnum()).Some? && c.params[i] == Describe(LongThenEnum())
    ensures Supported(c.params[i]) && Taken(c.params[i], Integer) == 1 && Taken(c.params[i], Sse) == 0
    ensures Used(LongThenEnum(), 0, 8) && SameFound(c, m, data, data[i := WithByte(data[i], 8, x)])
  {
    EnumIsOverlooked();
    SecondMemberUsed(LongThenEnum(), 8);
    NotCarriedIsLost(c, m, data, i, 8, x);
  }

  /** A reference to a class that is only declared. */
  function UnsizedReference(): Type {
    Reference(Record(0, false, false, []), None)
  }

  /** A reference to an incomplete class, described without a size: no byte of the pointer is passed. */
  lemma UnsizedReferenceDoesNotArrive(c: Call, m: Space, data: seq<seq<Byte>>, i: nat, b: nat, x: Byte)
    requires Valid(c) && i < |c.params| == |data| && !OnStack(c, i) && b < |data[i]| == 8
    requires c.params[i] == Describe(UnsizedReference())
    ensures Supported(c.params[i]) && Taken(c.params[i], Integer) == 0 && Taken(c.params[i], Sse) == 0
    ensures SameFound(c, m, data, data[i := WithByte(data[i], b, x)])
  {
    NotCarriedIsLost(c, m, data, i, b, x);
  }

  // ---- where the ABI puts a class ----

  /** The ABI passes nothing for a class without data. */
  predicate PassesNothing(c: Classes) {
    c.first == NoClass && c.second == NoClass
  }

  /**
    Once these registers are taken, the program passes a parameter with the first
    classes where the ABI passes one with the second: both on the stack, or both in
    registers of the same classes for the same eightbytes.
   */
  predicate SamePlace(u: Counters, size: nat, code: Classes, abi: Classes) {
    var p, q := Param(size, code, false), Param(size, abi, false);
    && !PassesNothing(abi)
    && if Overflows(u, code) then Overflows(u, abi)
       else !Overflows(u, abi) && SameRegisters(p, q, 0) && SameRegisters(p, q, 1)
  }

  predicate SameRegisters(p: Param, q: Param, j: nat) {
    (Occupies(p, j, Integer) <==> Occupies(q, j, Integer)) && (Occupies(p, j, Sse) <==> Occupies(q, j, Sse))
  }

  /** Memory takes both eightbytes or none. */
  predicate Settled(c: Classes) {
    PlainClasses(c) && (c.first == InMemory <==> c.second == InMemory)
  }

  /** Different classes show in some call, unless both mean the stack; a class without data is never passed right. */
  lemma SamePlaceIff(size: nat, a: Classes, b: Classes)
    requires size > 0 && Settled(a) && Settled(b)
    ensures (forall u :: SamePlace(u, size, a, b)) <==>
            !PassesNothing(b) && (a == b || (!TakesRegisters(a) && !TakesRegisters(b)))
  {
    if PassesNothing(b) {
      assert !SamePlace(Counters(0, 0), size, a, b);
    } else if a != b && (TakesRegisters(a) || TakesRegisters(b)) {
      var ints := if Count(a, Integer) != Count(b, Integer) then 6 - Least(Count(a, Integer), Count(b, Integer)) else 0;
      var sses := if Count(a, Sse) != Count(b, Sse) then 8 - Least(Count(a, Sse), Count(b, Sse)) else 0;
      assert !SamePlace(Counters(0, 0), size, a, b) || !SamePlace(Counters(ints, 0), size, a, b)
             || !SamePlace(Counters(0, sses), size, a, b);
    }
  }

  function Least(a: nat, b: nat): nat {
    if a < b then a else b
  }

  lemma AbiIsSettled(t: Type)
    requires AbiClassesOf(t).Some?
    ensures Settled(AbiClassesOf(t).value)
  {
    LeavesAreRegisters(t, 0);
  }

  /**
    A class is passed where the ABI passes it, whatever registers are taken, exactly
    if it has data and its classes are the ABI's, or the ABI's are memory and the
    program has none for it.
   */
  lemma PlacedAsAbiIff(t: Type)
    requires IsClass(t) && X87Free(t) && Classify(t).Some? && AbiClassesOf(t).Some? && ByteSize(t) > 0
    ensures var code, abi := Classify(t).value, AbiClassesOf(t).value;
            (forall u :: SamePlace(u, ByteSize(t), code, abi)) <==>
            if abi.first == InMemory then !TakesRegisters(code) else code == abi && !PassesNothing(abi)
  {
    X87FreeIsPlain(t);
    AbiIsSettled(t);
    SamePlaceIff(ByteSize(t), Classify(t).value, AbiClassesOf(t).value);
  }

  /** A class or array behind a typedef or qualifier always goes on the stack. */
  lemma AliasedClassGoesOnStack(c: Call, t: Type, i: nat)
    requires Valid(c) && Decided(c) && i < |c.params|
    requires t.Alias? && IsAggregate(t) && Classify(t).Some? && c.params[i] == Describe(t)
    ensures OnStack(c, i)
  {
    assert DecidedAt(c, i);
    AliasLosesClasses(t);
  }

  /** typedef struct { long a; } T: on the stack in every call, where the ABI has an integer register for it. */
  lemma TypedefGoesOnStack(c: Call, i: nat)
    requires Valid(c) && Decided(c) && i < |c.params| && Classify(OneLongTypedef()).Some?
    requires c.params[i] == Describe(OneLongTypedef())
    ensures OnStack(c, i)
    ensures AbiClassesOf(OneLongTypedef()).Some? && !Overflows(Counters(0, 0), AbiClassesOf(OneLongTypedef()).value)
  {
    AliasedClassGoesOnStack(c, OneLongTypedef(), i);
    TypedefIsOverlooked();
  }

  /** An empty class, for which the ABI passes nothing, takes eight bytes of the stack in every call. */
  lemma EmptyClassTakesSlot(c: Call, data: seq<seq<Byte>>, i: nat)
    requires Valid(c) && Decided(c) && i < |c.params| == |data| && Classify(Empty()).Some? && c.params[i] == Describe(Empty())
    ensures AbiClassesOf(Empty()).Some? && PassesNothing(AbiClassesOf(Empty()).value)
    ensures OnStack(c, i) && StackArgs(c, data, i + 1) == StackArgs(c, data, i) + [StackArg(data[i], 8)]
  {
    EmptyHasNoClass();
    assert DecidedAt(c, i);
    OneByteSlot();
  }

  lemma OneByteSlot()
    ensures RoundUpToEightbyte(1) == 8
  {
    RoundsUp(1);
  }
}
