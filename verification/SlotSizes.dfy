/**
  Arguments that are larger than their slots: which they are, and what becomes of
  what lies past the slot.
 */
module SlotSizes {
  import opened Options
  import opened Memory
  import opened ParameterClasses
  import opened CallLayout
  import opened StackArrival
  import opened CallArrival

  /** A reference described without a size, as one to a class that is only declared. */
  predicate Unsized(t: Type) {
    IsReference(t) && ByteSize(t) == 0
  }

  /**
    An argument that overload resolution accepts: as many bytes as the type has, or
    the at most eight of a literal or pointer; since pointers are stripped before
    types are compared, an object of any size for a pointer to its type.
   */
  predicate HasType(a: Arg, t: Type) {
    |a.data| == ByteSize(t) || |a.data| <= 8 || Stripped(t).Pointer?
  }

  /** A reference without a size, an object for a pointer, or a pointer for a class without a size. */
  predicate Outgrows(a: Arg, t: Type) {
    if IsReference(t) then Unsized(t)
    else if Stripped(t).Pointer? then |a.data| > 8
    else ByteSize(t) == 0 && a.data != []
  }

  /** The parameters of the call have these types, and the arguments match them. */
  predicate Typed(c: Call, ts: seq<Type>)
    requires Valid(c)
  {
    |ts| == |c.params| && forall i | 0 <= i < |ts| :: TypedAt(c, ts[i], i)
  }

  predicate TypedAt(c: Call, t: Type, i: nat)
    requires Valid(c) && i < |c.params|
  {
    Classify(t).Some? && c.params[i] == Describe(t) && (IsReference(t) || HasType(c.args[i], t))
  }

  /** What is passed is larger than its slot exactly in these cases. */
  lemma SlotTooSmallIff(c: Call, t: Type, i: nat)
    requires Valid(c) && i < |c.params| && TypedAt(c, t, i)
    ensures |Passed(c, i)| > RoundUpToEightbyte(c.params[i].size) <==> Outgrows(c.args[i], t)
  {
    AliasIsTransparent(t);
    SlotHolds(ByteSize(t), |Passed(c, i)|);
  }

  lemma SlotHolds(size: nat, n: nat)
    ensures n <= 8 ==> (n > RoundUpToEightbyte(size) <==> size == 0 && n > 0)
    ensures n == size ==> n <= RoundUpToEightbyte(size)
    ensures size == 8 ==> RoundUpToEightbyte(size) == 8
  {
    RoundsUp(size);
  }

  predicate SizedBefore(c: Call, ts: seq<Type>, n: nat)
    requires Valid(c) && |ts| == |c.params| && n <= |ts|
  {
    forall i | 0 <= i < n && OnStack(c, i) :: !Outgrows(c.args[i], ts[i])
  }

  lemma SlotsFitAppend(l: seq<StackArg>, a: StackArg)
    ensures SlotsFit(l + [a]) <==> SlotsFit(l) && |a.data| <= a.size
  {
    assert (l + [a])[|l|] == a;
    assert forall k | 0 <= k < |l| :: (l + [a])[k] == l[k];
  }

  lemma SizedSplit(c: Call, ts: seq<Type>, n: nat)
    requires Valid(c) && |ts| == |c.params| && 0 < n <= |ts|
    ensures SizedBefore(c, ts, n) <==> SizedBefore(c, ts, n - 1) && (OnStack(c, n - 1) ==> !Outgrows(c.args[n - 1], ts[n - 1]))
  {
  }

  /** The argument of parameter i fits its slot. */
  predicate FitsSlot(c: Call, i: nat)
    requires Valid(c) && i < |c.params|
  {
    |Passed(c, i)| <= RoundUpToEightbyte(c.params[i].size)
  }

  lemma FitsSlotIff(c: Call, ts: seq<Type>, i: nat)
    requires Valid(c) && Typed(c, ts) && i < |ts|
    ensures FitsSlot(c, i) <==> !Outgrows(c.args[i], ts[i])
  {
    assert TypedAt(c, ts[i], i);
    SlotTooSmallIff(c, ts[i], i);
  }

  lemma SlotsFitSplit(c: Call, n: nat)
    requires Valid(c) && 0 < n <= |c.params|
    ensures SlotsFit(StackArgs(c, AllPassed(c), n)) <==>
            SlotsFit(StackArgs(c, AllPassed(c), n - 1)) && (OnStack(c, n - 1) ==> FitsSlot(c, n - 1))
  {
    if OnStack(c, n - 1) {
      SlotsFitAppend(StackArgs(c, AllPassed(c), n - 1),
                     StackArg(AllPassed(c)[n - 1], RoundUpToEightbyte(c.params[n - 1].size)));
    }
  }

  lemma SlotsFitStep(c: Call, ts: seq<Type>, n: nat)
    requires Valid(c) && Typed(c, ts) && 0 < n <= |ts|
    ensures (OnStack(c, n - 1) ==> FitsSlot(c, n - 1)) <==> (OnStack(c, n - 1) ==> !Outgrows(c.args[n - 1], ts[n - 1]))
  {
    FitsSlotIff(c, ts, n - 1);
  }

  /** All stack arguments of a typed call fit their slots if and only if none of them is such a case. */
  lemma {:induction false} SlotsFitIff(c: Call, ts: seq<Type>, n: nat)
    requires Valid(c) && Typed(c, ts) && n <= |ts|
    ensures SlotsFit(StackArgs(c, AllPassed(c), n)) <==> SizedBefore(c, ts, n)
  {
    if n > 0 {
      SlotsFitIff(c, ts, n - 1);
      SizedSplit(c, ts, n);
      SlotsFitSplit(c, n);
      SlotsFitStep(c, ts, n);
    }
  }

  lemma {:induction false} NothingStacked(c: Call, data: seq<seq<Byte>>, i: nat, j: nat)
    requires Valid(c) && i <= j <= |c.params| == |data|
    requires forall k | i <= k < j :: !OnStack(c, k)
    ensures StackArgs(c, data, j) == StackArgs(c, data, i)
    decreases j
  {
    if i < j {
      NothingStacked(c, data, i, j - 1);
    }
  }

  /** A stack argument is written over what the one before it has past its slot. */
  lemma NextReaches(l: seq<StackArg>, k: nat, b: nat)
    requires k + 1 < |l| && l[k].size <= b < l[k].size + |l[k + 1].data|
    ensures ReachedAfter(l, k, Total(l, k) + b)
  {
    assert Reaches(l, k + 1, Total(l, k) + b);
  }

  lemma NextStackArg(c: Call, data: seq<seq<Byte>>, i: nat, j: nat)
    requires Valid(c) && i < j < |c.params| == |data| && OnStack(c, i) && OnStack(c, j)
    requires forall k | i < k < j :: !OnStack(c, k)
    ensures var l, k := StackArgs(c, data, |c.params|), |StackArgs(c, data, i)|;
            k + 1 < |l| && l[k + 1].data == data[j]
  {
    NothingStacked(c, data, i + 1, j);
    OwnStackArg(c, data, j);
  }

  lemma NoSizeNoSlot()
    ensures RoundUpToEightbyte(0) == 0
  {
    RoundsUp(0);
  }

  /** What the next stack argument is written over: what parameter i has past its slot. */
  predicate PastSlot(c: Call, data: seq<seq<Byte>>, i: nat, j: nat, b: nat)
    requires Valid(c) && i < j < |c.params| == |data|
  {
    var size := RoundUpToEightbyte(c.params[i].size);
    b < |data[i]| && size <= b < size + |data[j]|
  }

  lemma PastSlotIsOverwritten(c: Call, data: seq<seq<Byte>>, i: nat, j: nat, b: nat)
    requires Valid(c) && i < j < |c.params| == |data| && OnStack(c, i) && OnStack(c, j)
    requires (forall k | i < k < j :: !OnStack(c, k)) && PastSlot(c, data, i, j, b)
    ensures Overwritten(c, data, i, b)
  {
    NextStackArg(c, data, i, j);
    OwnStackArg(c, data, i);
    NextReaches(StackArgs(c, data, |c.params|), |StackArgs(c, data, i)|, b);
  }

  /** Of an argument larger than its slot, the next stack argument is written over what lies past the slot. */
  lemma OutgrownIsOverwritten(c: Call, m: Space, data: seq<seq<Byte>>, i: nat, j: nat, b: nat, x: Byte)
    requires Valid(c) && i < j < |c.params| == |data| && OnStack(c, i) && OnStack(c, j)
    requires (forall k | i < k < j :: !OnStack(c, k)) && PastSlot(c, data, i, j, b) && Reachable(c, m, data)
    ensures SameFound(c, m, data, data[i := WithByte(data[i], b, x)])
  {
    PastSlotIsOverwritten(c, data, i, j, b);
    NotSurvivingIsLost(c, m, data, i, b, x);
  }

  // ---- a seventh integer parameter without a size ----

  function Long(): Param {
    Describe(Base(Signed, 8))
  }

  function Longs(n: nat): (ps: seq<Param>)
    ensures |ps| == n && forall i | 0 <= i < n :: ps[i] == Long()
  {
    if n == 0 then [] else [Long()] + Longs(n - 1)
  }

  function Falses(n: nat): (bs: seq<bool>)
    ensures |bs| == n && forall i | 0 <= i < n :: !bs[i]
  {
    if n == 0 then [] else [false] + Falses(n - 1)
  }

  lemma LongTakesOne(u: Counters)
    requires u.ints < INT_REGISTERS && u.sses == 0
    ensures !Overflows(u, Long().classes) && Taken(Long(), Integer) == 1 && Taken(Long(), Sse) == 0
  {
  }

  lemma DecideNext(ps: seq<Param>, u: Counters)
    requires ps != [] && !Overflows(u, ps[0].classes)
    ensures var u' := Counters(u.ints + Taken(ps[0], Integer), u.sses + Taken(ps[0], Sse));
            Decide(ps, u) == [false] + Decide(ps[1..], u')
  {
  }

  lemma {:induction false} LongsTakeRegisters(n: nat, rest: seq<Param>, u: Counters)
    requires u.ints + n <= INT_REGISTERS && u.sses == 0
    ensures Decide(Longs(n) + rest, u) == Falses(n) + Decide(rest, Counters(u.ints + n, 0))
    decreases n
  {
    if n == 0 {
      assert Longs(0) + rest == rest;
    } else {
      var ps := Longs(n) + rest;
      assert ps[0] == Long() && ps[1..] == Longs(n - 1) + rest;
      LongTakesOne(u);
      DecideNext(ps, u);
      LongsTakeRegisters(n - 1, rest, Counters(u.ints + 1, 0));
    }
  }

  /** Six longs, a parameter of class INTEGER, and more. */
  function SeventhCall(p: Param, rest: seq<Param>, args: seq<Arg>, rsp: nat): Call {
    var ps := Longs(6) + ([p] + rest);
    Call(ps, args, 0, rsp, Decide(ps, Counters(0, 0)))
  }

  lemma SeventhGoesOnStack(p: Param, rest: seq<Param>, args: seq<Arg>, rsp: nat)
    requires |args| == 7 + |rest| && rsp < MODULUS && p.classes.first == Integer
    ensures var c := SeventhCall(p, rest, args, rsp);
            && Valid(c) && c.params[6] == p
            && c.stacked == Falses(6) + ([true] + Decide(rest, Counters(6, 0)))
  {
    LongsTakeRegisters(6, [p] + rest, Counters(0, 0));
    assert ([p] + rest)[1..] == rest;
  }

  /** After six longs, a long that follows is written over what the seventh argument has past its slot. */
  lemma EighthCoversSeventh(p: Param, args: seq<Arg>, rsp: nat, m: Space, b: nat, x: Byte)
    requires |args| == 8 && |args[7].data| == 8 && rsp < MODULUS && p.classes.first == Integer
    ensures var c := SeventhCall(p, [Long()], args, rsp);
            && Valid(c) && OnStack(c, 6) && OnStack(c, 7) && c.params[6] == p && |AllPassed(c)[7]| == 8
            && (PastSlot(c, AllPassed(c), 6, 7, b) && Reachable(c, m, AllPassed(c)) ==>
                  SameFound(c, m, AllPassed(c), AllPassed(c)[6 := WithByte(AllPassed(c)[6], b, x)]))
  {
    var c := SeventhCall(p, [Long()], args, rsp);
    SeventhGoesOnStack(p, [Long()], args, rsp);
    if PastSlot(c, AllPassed(c), 6, 7, b) && Reachable(c, m, AllPassed(c)) {
      OutgrownIsOverwritten(c, m, AllPassed(c), 6, 7, b, x);
    }
  }

  /** A seventh parameter that is a reference to a class without a size: no byte of the pointer is found. */
  lemma SeventhReferenceIsLost(args: seq<Arg>, rsp: nat, m: Space, b: nat, x: Byte)
    requires |args| == 8 && |args[7].data| == 8 && rsp < MODULUS && b < 8
    ensures var c := SeventhCall(UnsizedParam(), [Long()], args, rsp);
            && Valid(c) && OnStack(c, 6) && |AllPassed(c)[6]| == 8
            && (Reachable(c, m, AllPassed(c)) ==>
                  SameFound(c, m, AllPassed(c), AllPassed(c)[6 := WithByte(AllPassed(c)[6], b, x)]))
  {
    var p := UnsizedParam();
    EighthCoversSeventh(p, args, rsp, m, b, x);
    var c := SeventhCall(p, [Long()], args, rsp);
    PointerIsPassed(c, 6);
    AllPastSlot(c, AllPassed(c), 6, 7, b);
  }

  function UnsizedParam(): (p: Param)
    ensures p.size == 0 && p.isReference && p.classes == Classes(Integer, NoClass)
  {
    Describe(UnsizedReference())
  }

  lemma PointerIsPassed(c: Call, i: nat)
    requires Valid(c) && i < |c.params| && c.params[i].isReference
    ensures |AllPassed(c)[i]| == 8
  {
  }

  lemma AllPastSlot(c: Call, data: seq<seq<Byte>>, i: nat, j: nat, b: nat)
    requires Valid(c) && i < j < |c.params| == |data| && c.params[i].size == 0 && b < |data[i]| && b < |data[j]|
    ensures PastSlot(c, data, i, j, b)
  {
    NoSizeNoSlot();
  }

  /** A seventh parameter that is a pointer, given an object of 16 bytes: its second half is not found. */
  lemma ObjectForPointerIsOverwritten(args: seq<Arg>, rsp: nat, m: Space, b: nat, x: Byte)
    requires |args| == 8 && |args[6].data| == 16 && |args[7].data| == 8 && rsp < MODULUS && 8 <= b < 16
    ensures HasType(args[6], Pointer)
    ensures var c := SeventhCall(Describe(Pointer), [Long()], args, rsp);
            && Valid(c) && OnStack(c, 6) && AllPassed(c)[6] == args[6].data
            && (Reachable(c, m, AllPassed(c)) ==>
                  SameFound(c, m, AllPassed(c), AllPassed(c)[6 := WithByte(AllPassed(c)[6], b, x)]))
  {
    EighthCoversSeventh(Describe(Pointer), args, rsp, m, b, x);
    SlotHolds(8, 8);
  }

  lemma {:induction false} NothingSpilled(c: Call, i: nat)
    requires Valid(c) && i <= |c.params| && forall k | 0 <= k < i :: !Spilled(c, k)
    ensures RspAfter(c, i) == c.rsp && SpillWrites(c, i) == []
  {
    if i > 0 {
      NothingSpilled(c, i - 1);
    }
  }

  lemma AlignedStays(rsp: nat)
    requires rsp % 16 == 0
    ensures AndNot(rsp, 15) == rsp
  {
    MaskAligns16(rsp);
  }

  lemma OneWithoutSlot(rsp: nat, data: seq<Byte>)
    requires rsp < MODULUS && rsp % 16 == 0
    ensures var l := [StackArg(data, 0)];
            FinalRsp(rsp, l) == rsp && StackWrites(rsp, l, |l|) == [Write(rsp, data)]
  {
    var l := [StackArg(data, 0)];
    assert Below(rsp, l, 1) == Sub64(Below(rsp, l, 0), 0) == rsp;
    assert StackWrites(rsp, l, 1) == StackWrites(rsp, l, 0) + [Write(SlotAt(rsp, l, 0), data)];
    AlignedStays(rsp);
  }

  /** With nothing after it, the pointer is written to the caller's own frame if the stack pointer is a multiple of sixteen. */
  lemma SeventhReferenceHitsFrame(args: seq<Arg>, rsp: nat)
    requires |args| == 7 && args[6].address.Some? && rsp < MODULUS && rsp % 16 == 0
    ensures var c := SeventhCall(UnsizedParam(), [], args, rsp);
            Valid(c) && CalleeRsp(c) == rsp && |Passed(c, 6)| == 8 && Writes(c) == [Write(rsp, Passed(c, 6))]
  {
    var c := SeventhCall(UnsizedParam(), [], args, rsp);
    SeventhGoesOnStack(UnsizedParam(), [], args, rsp);
    var data := AllPassed(c);
    NothingSpilled(c, 7);
    NothingStacked(c, data, 0, 6);
    NoSizeNoSlot();
    assert StackArgs(c, data, 7) == [StackArg(data[6], 0)];
    OneWithoutSlot(rsp, data[6]);
  }
}
