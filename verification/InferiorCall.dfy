/**
  The methods that lay out an inferior call: the loops of setup_arguments in
  src/target.cpp and the return address pushed by process::inferior_call.
 */
module InferiorCall {
  import opened Options
  import opened Memory
  import opened Leb128
  import opened ParameterClasses
  import opened CallLayout
  import opened StackArrival
  import opened ArgumentsFound

  function ReservedFor(ret: Option<Type>): nat {
    if ret.Some? && Classify(ret.value).Some? && Classify(ret.value).value.first == InMemory then 1 else 0
  }

  predicate AllClassified(ts: seq<Type>) {
    forall i | 0 <= i < |ts| :: Classify(ts[i]).Some?
  }

  function DescribeAll(ts: seq<Type>): (ps: seq<Param>)
    requires AllClassified(ts)
    ensures |ps| == |ts|
  {
    seq(|ts|, i requires 0 <= i < |ts| => Describe(ts[i]))
  }

  /** Every parameter goes on the stack or has only classes the register loop knows. */
  predicate AllPlaceable(c: Call)
    requires Valid(c)
  {
    forall i | 0 <= i < |c.params| :: Placeable(c, i)
  }

  predicate Placeable(c: Call, i: nat)
    requires Valid(c) && i < |c.params|
  {
    OnStack(c, i) || Supported(c.params[i])
  }

  /** A sequence of write_memory calls, given up at the first that fails. */
  function Try(m: Space, ws: seq<Write>): Option<Space> {
    if ws == [] then Some(m) else
    var w := ws[|ws| - 1];
    var before := Try(m, ws[..|ws| - 1]);
    if before.Some? && Writable(before.value, w) then Some(Stored(before.value, w.at, w.data)) else None
  }

  lemma TryOneMore(m: Space, ws: seq<Write>, w: Write)
    ensures Try(m, ws + [w]) ==
            var before := Try(m, ws);
            if before.Some? && Writable(before.value, w) then Some(Stored(before.value, w.at, w.data)) else None
  {
    assert (ws + [w])[..|ws|] == ws;
  }

  lemma {:induction false} TryAppend(m: Space, vs: seq<Write>, ws: seq<Write>)
    ensures Try(m, vs + ws) == if Try(m, vs).Some? then Try(Try(m, vs).value, ws) else None
    decreases |ws|
  {
    if ws == [] {
      assert vs + ws == vs;
    } else {
      var front, last := ws[..|ws| - 1], ws[|ws| - 1];
      TryAppend(m, vs, front);
      TryOneMore(m, vs + front, last);
      assert vs + ws == vs + front + [last];
      assert ws == front + [last];
    }
  }

  lemma TryPrefix(m: Space, vs: seq<Write>, ws: seq<Write>)
    requires vs <= ws && Try(m, vs).None?
    ensures Try(m, ws).None?
  {
    TryAppend(m, vs, ws[|vs|..]);
    assert ws == vs + ws[|vs|..];
  }

  /** The calls go through exactly when all they touch is mapped. */
  lemma {:induction false} TryIsWritten(m: Space, ws: seq<Write>)
    ensures Try(m, ws) == if AllWritable(m, ws) then Some(Written(m, ws)) else None
    decreases |ws|
  {
    if ws != [] {
      var front, last := ws[..|ws| - 1], ws[|ws| - 1];
      TryIsWritten(m, front);
      SameKeysWritable(m, Written(m, front), last);
      WritableSplit(m, ws);
    }
  }

  lemma WritableSplit(m: Space, ws: seq<Write>)
    requires ws != []
    ensures AllWritable(m, ws) <==> AllWritable(m, ws[..|ws| - 1]) && Writable(m, ws[|ws| - 1])
  {
    var front := ws[..|ws| - 1];
    assert forall k | 0 <= k < |front| :: front[k] == ws[k];
  }

  lemma SameKeysWritable(m: Space, m': Space, w: Write)
    requires m.Keys == m'.Keys
    ensures Writable(m, w) <==> Writable(m', w)
  {
    assert forall x :: x in m <==> x in m';
  }

  /** The eightbytes of class k among the first j, of which there are at most two. */
  function FirstWords(p: Param, data: seq<Byte>, j: nat, k: Class): (ws: seq<Register>)
    ensures |ws| <= Taken(p, k)
  {
    if j == 0 then [] else if j == 1 then Word(p, data, 0, k) else Words(p, data, k)
  }

  /** Putting the next eightbyte after the first j. */
  lemma PutNext(s: seq<Register>, at: nat, p: Param, data: seq<Byte>, j: nat, k: Class)
    requires j < 2 && at + Taken(p, k) <= |s|
    ensures |FirstWords(p, data, j + 1, k)| == |FirstWords(p, data, j, k)| + |Word(p, data, j, k)|
    ensures Put(Put(s, at, FirstWords(p, data, j, k)), at + |FirstWords(p, data, j, k)|, Word(p, data, j, k))
            == Put(s, at, FirstWords(p, data, j + 1, k))
  {
    var first, next := FirstWords(p, data, j, k), Word(p, data, j, k);
    assert FirstWords(p, data, j + 1, k) == first + next;
    PutTwice(s, at, first, next);
  }

  /** Past the parameter's size there are no more eightbytes. */
  lemma FirstWordsEnd(p: Param, data: seq<Byte>, j: nat, k: Class)
    requires p.size <= 8 * j
    ensures FirstWords(p, data, j, k) == Words(p, data, k)
  {
  }

  /** The registers of class k, from number `at` on, hold the first j eightbytes of that class and nothing else is new. */
  predicate Filled(regs: seq<Register>, regs': seq<Register>, at: nat, at': nat,
                   p: Param, data: seq<Byte>, j: nat, k: Class)
  {
    && at + Taken(p, k) <= |regs|
    && at' == at + |FirstWords(p, data, j, k)|
    && regs' == Put(regs, at, FirstWords(p, data, j, k))
  }

  lemma NothingPlaced(c: Call, data: seq<seq<Byte>>, ints: seq<Register>, sses: seq<Register>)
    requires Valid(c) && |data| == |c.params| && |ints| == INT_REGISTERS && |sses| == SSE_REGISTERS
    ensures Machine.InOrder(c, data, ints, ints, sses, sses, 0)
  {
    PutNone(ints, c.reserved);
    PutNone(sses, 0);
  }

  class Machine {
    var ints: seq<Register>
    var sses: seq<Register>
    var rax: nat
    var rsp: nat
    var rip: nat
    var memory: Space

    constructor (rsp: nat, memory: Space)
      requires rsp < MODULUS && WholePages(memory)
      ensures Ok() && this.rsp == rsp && this.memory == memory
    {
      ints, sses := seq(INT_REGISTERS, _ => Register(Zeros(8))), seq(SSE_REGISTERS, _ => Register(Zeros(8)));
      rax, rip := 0, 0;
      this.rsp, this.memory := rsp, memory;
    }

    ghost predicate Ok()
      reads this
    {
      |ints| == INT_REGISTERS && |sses| == SSE_REGISTERS && rsp < MODULUS && WholePages(memory)
    }

    /** write_memory on the inferior. */
    method Store(at: nat, data: seq<Byte>) returns (ok: bool)
      requires WholePages(memory) && at < MODULUS
      modifies this`memory
      ensures WholePages(memory)
      ensures ok == Writable(old(memory), Write(at, data))
      ensures ok ==> memory == Stored(old(memory), at, data)
    {
      memory, ok := WriteMemory(memory, at, data);
    }

    /** A copy of argument i on the stack; a refused write is one that the whole call needs. */
    method SpillArgument(arg: Arg, sp: nat, ghost c: Call, ghost i: nat, ghost before: Space) returns (ok: bool)
      requires Valid(c) && i < |c.params| && arg == c.args[i] && Spilled(c, i) && sp == RspAfter(c, i + 1)
      requires WholePages(memory) && Try(before, SpillWrites(c, i)) == Some(memory)
      modifies this`memory
      ensures WholePages(memory)
      ensures ok ==> Try(before, SpillWrites(c, i + 1)) == Some(memory)
      ensures !ok ==> Try(before, SpillWrites(c, |c.params|)).None?
    {
      TryOneMore(before, SpillWrites(c, i), Write(sp, arg.data));
      ok := Store(sp, arg.data);
      if !ok {
        SpillWritesGrow(c, i + 1, |c.params|);
        TryPrefix(before, SpillWrites(c, i + 1), SpillWrites(c, |c.params|));
      }
    }

    /** An argument bound to a reference becomes a pointer to where it lives or is copied to. */
    method PassArgument(param: Param, arg: Arg, sp: nat, ghost c: Call, ghost i: nat, ghost before: Space)
      returns (ok: bool, data: seq<Byte>, sp': nat)
      requires Valid(c) && i < |c.params| && param == c.params[i] && arg == c.args[i] && sp == RspAfter(c, i)
      requires WholePages(memory) && Try(before, SpillWrites(c, i)) == Some(memory)
      modifies this`memory
      ensures WholePages(memory)
      ensures ok ==> sp' == RspAfter(c, i + 1) && data == Passed(c, i)
      ensures ok ==> Try(before, SpillWrites(c, i + 1)) == Some(memory)
      ensures !ok ==> Try(before, SpillWrites(c, |c.params|)).None?
    {
      ok, data, sp' := true, arg.data, sp;
      if param.isReference {
        if arg.address.Some? {
          data := ToBytes(arg.address.value, 8);
        } else {
          sp' := SpillTo(sp, arg);
          ok := SpillArgument(arg, sp', c, i, before);
          data := ToBytes(sp', 8);
        }
      }
    }

    /** The first loop over the parameters. */
    method SpillReferences(params: seq<Param>, args: seq<Arg>, ghost c: Call)
      returns (ok: bool, passed: seq<seq<Byte>>, sp: nat)
      requires Valid(c) && params == c.params && args == c.args && rsp == c.rsp && WholePages(memory)
      modifies this`memory
      ensures WholePages(memory)
      ensures Try(old(memory), SpillWrites(c, |c.params|)) == if ok then Some(memory) else None
      ensures ok ==> passed == AllPassed(c) && sp == RspAfter(c, |c.params|)
      ensures ok ==> |passed| == |params| && forall i | 0 <= i < |params| :: IsPassed(c, i, passed[i])
    {
      passed, sp := [], rsp;
      for i := 0 to |params|
        invariant WholePages(memory)
        invariant sp == RspAfter(c, i) && passed == AllPassed(c)[..i]
        invariant Try(old(memory), SpillWrites(c, i)) == Some(memory)
      {
        var data;
        ok, data, sp := PassArgument(params[i], args[i], sp, c, i, old(memory));
        if !ok {
          return;
        }
        passed := passed + [data];
      }
      forall i | 0 <= i < |params| ensures IsPassed(c, i, passed[i]) {
        PassedMeans(c, i);
      }
      ok := true;
    }

    /** One parameter's eightbytes go to the next registers of their classes. */
    method PlaceInRegisters(p: Param, data: seq<Byte>, u: Counters) returns (ok: bool, u': Counters)
      requires |ints| == INT_REGISTERS && |sses| == SSE_REGISTERS
      requires u.ints + Taken(p, Integer) <= INT_REGISTERS && u.sses + Taken(p, Sse) <= SSE_REGISTERS
      modifies this`ints, this`sses
      ensures |ints| == INT_REGISTERS && |sses| == SSE_REGISTERS
      ensures ok <==> Supported(p)
      ensures ok ==>
                && u' == Counters(u.ints + Taken(p, Integer), u.sses + Taken(p, Sse))
                && ints == Put(old(ints), u.ints, Words(p, data, Integer))
                && sses == Put(old(sses), u.sses, Words(p, data, Sse))
    {
      u' := u;
      var j := 0;
      while 8 * j < p.size
        invariant j <= 2 && (j >= 1 ==> Known(p, 0)) && (j >= 2 ==> Known(p, 1))
        invariant |ints| == INT_REGISTERS && |sses| == SSE_REGISTERS
        invariant Filled(old(ints), ints, u.ints, u'.ints, p, data, j, Integer)
        invariant Filled(old(sses), sses, u.sses, u'.sses, p, data, j, Sse)
      {
        if j == 2 {
          // the array of classes ends here
          return false, u';
        }
        ok, u' := PlaceEightbyte(p, data, j, u', u, old(ints), old(sses));
        if !ok {
          return;
        }
        j := j + 1;
      }
      FirstWordsEnd(p, data, j, Integer);
      FirstWordsEnd(p, data, j, Sse);
      ok := true;
    }

    method PlaceEightbyte(p: Param, data: seq<Byte>, j: nat, u: Counters,
                          ghost u0: Counters, ghost ints0: seq<Register>, ghost sses0: seq<Register>)
      returns (ok: bool, u': Counters)
      requires j < 2 && 8 * j < p.size
      requires Filled(ints0, ints, u0.ints, u.ints, p, data, j, Integer)
      requires Filled(sses0, sses, u0.sses, u.sses, p, data, j, Sse)
      modifies this`ints, this`sses
      ensures |ints| == old(|ints|) && |sses| == old(|sses|)
      ensures ok <==> Known(p, j)
      ensures ok ==>
                && Filled(ints0, ints, u0.ints, u'.ints, p, data, j + 1, Integer)
                && Filled(sses0, sses, u0.sses, u'.sses, p, data, j + 1, Sse)
    {
      PutNext(ints0, u0.ints, p, data, j, Integer);
      PutNext(sses0, u0.sses, p, data, j, Sse);
      PutNone(ints, u.ints);
      PutNone(sses, u.sses);
      u', ok := u, true;
      match ClassAt(p.classes, j) {
        case Integer =>
          PutOne(ints, u.ints, Eightbyte(data, j));
          ints, u' := ints[u.ints := Eightbyte(data, j)], u.(ints := u.ints + 1);
        case Sse =>
          PutOne(sses, u.sses, Eightbyte(data, j));
          sses, u' := sses[u.sses := Eightbyte(data, j)], u.(sses := u.sses + 1);
        case NoClass =>
        case _ => ok := false;
      }
    }

    /** Parameter i, for which there are enough registers. */
    method PlaceParameter(p: Param, bytes: seq<Byte>, u: Counters, ghost c: Call, ghost data: seq<seq<Byte>>, ghost i: nat,
                          ghost ints0: seq<Register>, ghost sses0: seq<Register>)
      returns (ok: bool, u': Counters)
      requires Valid(c) && Decided(c) && i < |data| == |c.params| && p == c.params[i] && bytes == data[i]
      requires |ints0| == INT_REGISTERS && |sses0| == SSE_REGISTERS
      requires u == Used(c, i) && !OnStack(c, i)
      requires InOrder(c, data, ints0, ints, sses0, sses, i)
      modifies this`ints, this`sses
      ensures |ints| == INT_REGISTERS && |sses| == SSE_REGISTERS
      ensures ok <==> Supported(p)
      ensures ok ==> u' == Used(c, i + 1) && InOrder(c, data, ints0, ints, sses0, sses, i + 1)
    {
      CountersMatch(c, data, i);
      CountersBounded(c, i + 1);
      PutTwice(ints0, c.reserved, RegisterValues(c, data, i, Integer), Words(p, bytes, Integer));
      PutTwice(sses0, 0, RegisterValues(c, data, i, Sse), Words(p, bytes, Sse));
      ok, u' := PlaceInRegisters(p, bytes, u);
    }

    /** Parameter i goes in registers, or on the stack if it needs none or too many. */
    method PlaceNext(p: Param, bytes: seq<Byte>, stacked: seq<StackArg>, u: Counters,
                     ghost c: Call, ghost data: seq<seq<Byte>>, ghost i: nat,
                     ghost ints0: seq<Register>, ghost sses0: seq<Register>)
      returns (ok: bool, stacked': seq<StackArg>, u': Counters)
      requires Valid(c) && Decided(c) && i < |data| == |c.params| && p == c.params[i] && bytes == data[i]
      requires |ints0| == INT_REGISTERS && |sses0| == SSE_REGISTERS
      requires u == Used(c, i) && stacked == StackArgs(c, data, i)
      requires InOrder(c, data, ints0, ints, sses0, sses, i)
      modifies this`ints, this`sses
      ensures |ints| == INT_REGISTERS && |sses| == SSE_REGISTERS
      ensures ok <==> Placeable(c, i)
      ensures ok ==> u' == Used(c, i + 1) && stacked' == StackArgs(c, data, i + 1)
      ensures ok ==> InOrder(c, data, ints0, ints, sses0, sses, i + 1)
    {
      assert DecidedAt(c, i);
      var needInts, needSses := Count(p.classes, Integer), Count(p.classes, Sse);
      if u.ints + needInts > INT_REGISTERS || u.sses + needSses > SSE_REGISTERS || (needInts == 0 && needSses == 0) {
        return true, stacked + [StackArg(bytes, RoundUpToEightbyte(p.size))], u;
      }
      stacked' := stacked;
      ok, u' := PlaceParameter(p, bytes, u, c, data, i, ints0, sses0);
    }

    /** The second loop: registers in order, and the rest set aside for the stack. */
    method PlaceArguments(params: seq<Param>, reserved: nat, data: seq<seq<Byte>>, ghost c: Call)
      returns (ok: bool, stacked: seq<StackArg>, u: Counters)
      requires Valid(c) && Decided(c) && params == c.params && reserved == c.reserved && |data| == |params|
      requires |ints| == INT_REGISTERS && |sses| == SSE_REGISTERS
      modifies this`ints, this`sses
      ensures |ints| == INT_REGISTERS && |sses| == SSE_REGISTERS
      ensures ok <==> AllPlaceable(c)
      ensures ok ==> stacked == StackArgs(c, data, |params|) && u == Used(c, |params|)
      ensures ok ==> InOrder(c, data, old(ints), ints, old(sses), sses, |params|)
    {
      stacked, u := [], Counters(reserved, 0);
      NothingPlaced(c, data, ints, sses);
      for i := 0 to |params|
        invariant |ints| == INT_REGISTERS && |sses| == SSE_REGISTERS
        invariant stacked == StackArgs(c, data, i) && u == Used(c, i)
        invariant forall k | 0 <= k < i :: Placeable(c, k)
        invariant InOrder(c, data, old(ints), ints, old(sses), sses, i)
      {
        ok, stacked, u := PlaceNext(params[i], data[i], stacked, u, c, data, i, old(ints), old(sses));
        if !ok {
          return;
        }
      }
      ok := true;
    }

    /** The registers hold, in order, the eightbytes of the first i parameters passed in them. */
    static ghost predicate InOrder(c: Call, data: seq<seq<Byte>>, ints: seq<Register>, ints': seq<Register>,
                                   sses: seq<Register>, sses': seq<Register>, i: nat)
      requires Valid(c) && i <= |c.params| == |data| && |ints| == INT_REGISTERS && |sses| == SSE_REGISTERS
    {
      && ints' == Put(ints, c.reserved, RegisterValues(c, data, i, Integer))
      && sses' == Put(sses, 0, RegisterValues(c, data, i, Sse))
    }

    /** Room for the slots, aligned. */
    static method ReserveSlots(l: seq<StackArg>, top: nat) returns (sp: nat)
      requires top < MODULUS
      ensures sp == FinalRsp(top, l) && sp % 16 == 0
      ensures Total(l, |l|) <= top ==> sp + Total(l, |l|) <= top < sp + Total(l, |l|) + 16
    {
      sp := top;
      for k := 0 to |l|
        invariant sp == Below(top, l, k)
      {
        sp := Sub64(sp, l[k].size);
      }
      MaskAligns16(sp);
      if Total(l, |l|) <= top {
        BelowSubtracts(top, l, |l|);
      }
      sp := AndNot(sp, 15);
    }

    /** The stack arguments, from the bottom up. */
    method FillSlots(l: seq<StackArg>, sp: nat) returns (ok: bool)
      requires WholePages(memory) && sp < MODULUS
      modifies this`memory
      ensures WholePages(memory)
      ensures Try(old(memory), StackWrites(sp, l, |l|)) == if ok then Some(memory) else None
    {
      var at := sp;
      for k := 0 to |l|
        invariant WholePages(memory) && at == SlotAt(sp, l, k)
        invariant Try(old(memory), StackWrites(sp, l, k)) == Some(memory)
      {
        TryOneMore(old(memory), StackWrites(sp, l, k), Write(at, l[k].data));
        ok := Store(at, l[k].data);
        if !ok {
          StackWritesGrow(sp, l, k + 1, |l|);
          TryPrefix(old(memory), StackWrites(sp, l, k + 1), StackWrites(sp, l, |l|));
          return;
        }
        at := Add64(at, l[k].size);
      }
      ok := true;
    }

    /** setup_arguments once the types are known. */
    method LayOut(params: seq<Param>, args: seq<Arg>, reserved: nat, ghost c: Call) returns (ok: bool)
      requires Ok() && Valid(c) && Decided(c)
      requires params == c.params && args == c.args && reserved == c.reserved && rsp == c.rsp
      modifies this
      ensures Ok() && rip == old(rip)
      ensures ok <==> AllWritable(old(memory), Writes(c)) && AllPlaceable(c)
      ensures ok ==>
                && memory == Written(old(memory), Writes(c))
                && rsp == CalleeRsp(c) && rax == Used(c, |c.params|).sses
                && InOrder(c, AllPassed(c), old(ints), ints, old(sses), sses, |c.params|)
    {
      ghost var spills := SpillWrites(c, |c.params|);
      ghost var l := StackArgs(c, AllPassed(c), |c.params|);
      TryIsWritten(memory, Writes(c));
      TryAppend(memory, spills, StackWrites(CalleeRsp(c), l, |l|));
      var passed, top, stacked, u, sp;
      ok, passed, top := SpillReferences(params, args, c);
      if !ok {
        return;
      }
      ok, stacked, u := PlaceArguments(params, reserved, passed, c);
      if !ok {
        return;
      }
      sp := ReserveSlots(stacked, top);
      ok := FillSlots(stacked, sp);
      if !ok {
        return;
      }
      rax, rsp := u.sses, sp;
    }

    /** The call that setup_arguments lays out for these types. */
    static function CallOf(ret: Option<Type>, params: seq<Type>, args: seq<Arg>, rsp: nat): (c: Call)
      requires AllClassified(params) && |args| == |params| && rsp < MODULUS
      ensures Valid(c)
    {
      var ps, reserved := DescribeAll(params), ReservedFor(ret);
      Call(ps, args, reserved, rsp, Decide(ps, Counters(reserved, 0)))
    }

    static lemma CallIsDecided(ret: Option<Type>, params: seq<Type>, args: seq<Arg>, rsp: nat)
      requires AllClassified(params) && |args| == |params| && rsp < MODULUS
      ensures Decided(CallOf(ret, params, args, rsp))
    {
      var c := CallOf(ret, params, args, rsp);
      assert c.params[0..] == c.params && c.stacked[0..] == c.stacked;
      DecideDecides(c, 0);
    }

    /** setup_arguments finds nothing to report an error for. */
    static predicate Acceptable(ret: Option<Type>, slot: Option<Address>, params: seq<Type>, args: seq<Arg>,
                                rsp: nat, m: Space)
      requires |args| == |params| && rsp < MODULUS
    {
      && (ret.Some? ==> Classify(ret.value).Some?)
      && (ReservedFor(ret) == 1 ==> slot.Some?)
      && AllClassified(params)
      && var c := CallOf(ret, params, args, rsp);
         AllWritable(m, Writes(c)) && AllPlaceable(c)
    }

    /** The integer registers with the return slot's address in the first, if the result is returned in memory. */
    static function WithSlot(ret: Option<Type>, slot: Option<Address>, regs: seq<Register>): (r: seq<Register>)
      requires |regs| == INT_REGISTERS
      ensures |r| == INT_REGISTERS
    {
      if ReservedFor(ret) == 1 && slot.Some? then regs[0 := Register(ToBytes(slot.value, 8))] else regs
    }

    /**
      setup_arguments: the return slot, then the arguments.  The types are
      classified up front; this changes only what a failing call leaves behind.
     */
    method SetupArguments(ret: Option<Type>, slot: Option<Address>, params: seq<Type>, args: seq<Arg>) returns (ok: bool)
      requires Ok() && |args| == |params|
      modifies this
      ensures Ok() && rip == old(rip)
      ensures ok <==> Acceptable(ret, slot, params, args, old(rsp), old(memory))
      ensures ok ==>
                var c := CallOf(ret, params, args, old(rsp));
                && memory == Written(old(memory), Writes(c))
                && rsp == CalleeRsp(c) && rax == Used(c, |c.params|).sses
                && InOrder(c, AllPassed(c), WithSlot(ret, slot, old(ints)), ints, old(sses), sses, |c.params|)
                && AllFound(c, ints, sses, memory)
    {
      if ret.Some? {
        var classes := Classify(ret.value);
        if classes.None? {
          return false;
        }
        if classes.value.first == InMemory {
          if slot.None? {
            return false;
          }
          ints := ints[0 := Register(ToBytes(slot.value, 8))];
        }
      }
      if !AllClassified(params) {
        return false;
      }
      CallIsDecided(ret, params, args, rsp);
      ghost var c := CallOf(ret, params, args, rsp);
      ok := LayOut(DescribeAll(params), args, ReservedFor(ret), c);
      if ok {
        LaidOutIsFound(c, old(memory), WithSlot(ret, slot, old(ints)), ints, old(sses), sses);
      }
    }

    /** The part of inferior_call before the thread runs. */
    method PushReturnAddress(function_: nat, returnTo: nat) returns (ok: bool)
      requires Ok()
      modifies this`rip, this`rsp, this`memory
      ensures Ok() && rip == function_
      ensures ok <==> Writable(old(memory), Write(Sub64(old(rsp), 8), ToBytes(returnTo, 8)))
      ensures ok ==> rsp == Sub64(old(rsp), 8) && memory == Stored(old(memory), rsp, ToBytes(returnTo, 8))
    {
      rip := function_;
      var sp := Sub64(rsp, 8);
      ok := Store(sp, ToBytes(returnTo, 8));
      if ok {
        rsp := sp;
      }
    }

    /** All the bytes a call has put into memory, last the return address. */
    static function CallWrites(c: Call, returnTo: nat): seq<Write>
      requires Valid(c)
    {
      Writes(c) + [Write(Sub64(CalleeRsp(c), 8), ToBytes(returnTo, 8))]
    }

    /** A result returned in memory takes the first register, which holds its address; nothing else does. */
    static predicate SlotPassed(ret: Option<Type>, slot: Option<Address>, c: Call, ints: seq<Register>) {
      && (c.reserved == 1 <==> ret.Some? && Classify(ret.value).Some? && Classify(ret.value).value.first == InMemory)
      && (c.reserved == 1 ==> slot.Some? && ints != [] && |ints[0].bytes| == 8 && LittleEndian(ints[0].bytes) == slot.value)
    }

    static lemma SlotIsPassed(ret: Option<Type>, slot: Option<Address>, c: Call, ints: seq<Register>, ints': seq<Register>)
      requires Valid(c) && |ints| == INT_REGISTERS && c.reserved == ReservedFor(ret) && (c.reserved == 1 ==> slot.Some?)
      requires ints' == Put(WithSlot(ret, slot, ints), c.reserved, RegisterValues(c, AllPassed(c), |c.params|, Integer))
      ensures SlotPassed(ret, slot, c, ints')
    {
      if c.reserved == 1 {
        SlotStays(WithSlot(ret, slot, ints), RegisterValues(c, AllPassed(c), |c.params|, Integer));
        WordReadsBack(slot.value);
      }
    }

    /** Setting up a call and entering the function. */
    method Enter(ret: Option<Type>, slot: Option<Address>, params: seq<Type>, args: seq<Arg>, function_: nat, returnTo: nat)
      returns (ok: bool)
      requires Ok() && |args| == |params|
      modifies this
      ensures Ok()
      ensures ok <==> && Acceptable(ret, slot, params, args, old(rsp), old(memory))
                      && AllWritable(old(memory), CallWrites(CallOf(ret, params, args, old(rsp)), returnTo))
      ensures ok ==>
                && rip == function_
                && var c := CallOf(ret, params, args, old(rsp));
                   var ws := CallWrites(c, returnTo);
                   && memory == Written(old(memory), ws)
                   && rsp == Sub64(CalleeRsp(c), 8) && rax == Used(c, |c.params|).sses
                   && InOrder(c, AllPassed(c), WithSlot(ret, slot, old(ints)), ints, old(sses), sses, |c.params|)
                   && InOwnRegisters(c, ints, sses) && AllFound(c, ints, sses, memory)
                   && SlotPassed(ret, slot, c, ints)
                   && (Room(c) ==> CalleeSeesBytes(c, returnTo, old(memory), memory, rsp))
                   && (Fits(c) ==> CalleeSees(c, returnTo, old(memory), memory, rsp))
    {
      CallIsSound(ret, params, args, rsp, returnTo, memory, WithSlot(ret, slot, ints), sses);
      ok := SetupArguments(ret, slot, params, args);
      if !ok {
        return;
      }
      ghost var c := CallOf(ret, params, args, old(rsp));
      ghost var w := Write(Sub64(CalleeRsp(c), 8), ToBytes(returnTo, 8));
      WrittenOneMore(old(memory), Writes(c), w);
      SameKeysWritable(old(memory), memory, w);
      ok := PushReturnAddress(function_, returnTo);
      assert (Writes(c) + [w])[..|Writes(c)|] == Writes(c);
      WritableSplit(old(memory), Writes(c) + [w]);
      if ok {
        SeenIsFound(c, ints, sses, memory);
        SlotIsPassed(ret, slot, c, old(ints), ints);
      }
    }
  }

  /** What is put from the second register on leaves the first as it is. */
  lemma SlotStays(regs: seq<Register>, values: seq<Register>)
    requires regs != []
    ensures Put(regs, 1, values) != [] && Put(regs, 1, values)[0] == regs[0]
  {
  }

  lemma WrittenOneMore(m: Space, ws: seq<Write>, w: Write)
    ensures Written(m, ws + [w]) == Stored(Written(m, ws), w.at, w.data)
  {
    assert (ws + [w])[..|ws|] == ws;
  }

  lemma WritableMeansMapped(m: Space, ws: seq<Write>)
    requires AllWritable(m, ws)
    ensures DataMapped(m, ws)
  {
    forall k | 0 <= k < |ws| ensures Mapped(m, ws[k].at, |ws[k].data|) {
      assert Writable(m, ws[k]);
    }
  }

  /**
    What the callee finds in memory: a stack pointer eight below a multiple of
    sixteen with the return address at it, every stack argument whole in its own
    slot, every argument bound to a reference whole where its pointer points, and
    no byte changed outside the new part of the stack.
   */
  ghost predicate CalleeSees(c: Call, returnTo: nat, m: Space, m': Space, rsp: nat)
    requires Valid(c)
  {
    && (rsp + 8) % 16 == 0
    && Holds(m', Write(rsp, ToBytes(returnTo, 8)))
    && (forall i | 0 <= i < |c.params| && OnStack(c, i) :: Holds(m', Write(SlotFor(c, AllPassed(c), i), Passed(c, i))))
    && (forall i | 0 <= i < |c.params| && Spilled(c, i) :: Holds(m', Write(RspAfter(c, i + 1), c.args[i].data)))
    && SameOutside(m, m', rsp, c.rsp)
  }

  /** It finds all that where there is room and every argument fits its slot. */
  lemma CalleeFinds(c: Call, returnTo: nat, m: Space)
    requires Valid(c) && Fits(c) && AllWritable(m, Machine.CallWrites(c, returnTo))
    ensures CalleeSees(c, returnTo, m, Written(m, Machine.CallWrites(c, returnTo)), Sub64(CalleeRsp(c), 8))
  {
    var rsp, ws := Sub64(CalleeRsp(c), 8), Machine.CallWrites(c, returnTo);
    var w, m' := Write(rsp, ToBytes(returnTo, 8)), Written(m, ws);
    LayoutSeparated(c);
    JoinSeparated(Writes(c), [w], rsp, CalleeRsp(c), c.rsp);
    WritableMeansMapped(m, ws);
    WritesFrame(m, ws, rsp, c.rsp);
    forall v | v in ws ensures Holds(m', v) {
      var k :| 0 <= k < |ws| && ws[k] == v;
      SeparateWritesHold(m, ws, k);
    }
    assert ws[|Writes(c)|] == w;
    forall i | 0 <= i < |c.params| && OnStack(c, i) ensures Holds(m', Write(SlotFor(c, AllPassed(c), i), Passed(c, i))) {
      OwnWrite(c, AllPassed(c), i);
    }
    forall i | 0 <= i < |c.params| && Spilled(c, i) ensures Holds(m', Write(RspAfter(c, i + 1), c.args[i].data)) {
      OwnSpill(c, i);
    }
  }

  ghost predicate SameElsewhere(c: Call, m: Space, m': Space, rsp: nat)
    requires Valid(c)
  {
    && m'.Keys == m.Keys
    && forall x | x in m && !(rsp <= x < c.rsp) && !StackReaches(c, AllPassed(c), x) :: m'[x] == m[x]
  }

  /**
    What the callee finds whether or not the stack arguments fit their slots: the
    return address, each stack byte that no later argument is written over, each
    copied byte that no stack argument reaches; and nothing has changed below its
    stack pointer, or at the caller's or above where no stack argument reaches.
   */
  ghost predicate CalleeSeesBytes(c: Call, returnTo: nat, m: Space, m': Space, rsp: nat)
    requires Valid(c)
  {
    && (rsp + 8) % 16 == 0 && Holds(m', Write(rsp, ToBytes(returnTo, 8)))
    && StackBytesFound(c, m') && SpillBytesFound(c, m') && SameElsewhere(c, m, m', rsp)
  }

  /** Above the callee's stack pointer the return address changes nothing. */
  lemma ReturnAddressBelow(m: Space, ws: seq<Write>, w: Write, x: nat)
    requires x in m && !Covers(w, x)
    ensures Written(m, ws + [w])[x] == Written(m, ws)[x]
  {
    WrittenOneMore(m, ws, w);
  }

  lemma WriteIsMapped(m: Space, ws: seq<Write>, k: nat, b: nat)
    requires DataMapped(m, ws) && k < |ws| && b < |ws[k].data|
    ensures ws[k].at + b in m
  {
    assert Mapped(m, ws[k].at, |ws[k].data|);
  }

  lemma StackByteHeld(c: Call, m: Space, i: nat, b: nat)
    requires Valid(c) && Room(c) && i < |c.params| && OnStack(c, i) && b < |Passed(c, i)| && DataMapped(m, Writes(c))
    requires !Overwritten(c, AllPassed(c), i, b)
    ensures StackByteFound(c, Written(m, Writes(c)), i, b)
  {
    OwnWrite(c, AllPassed(c), i);
    WriteIsMapped(m, Writes(c), WriteIndex(c, AllPassed(c), i), b);
    StackByteShows(c, AllPassed(c), i, b, m);
  }

  /** What setup_arguments leaves in registers and memory is what the parameters are to be passed. */
  lemma LaidOutIsFound(c: Call, m: Space, ints: seq<Register>, ints': seq<Register>, sses: seq<Register>, sses': seq<Register>)
    requires Valid(c) && Decided(c) && AllWritable(m, Writes(c)) && |ints| == INT_REGISTERS && |sses| == SSE_REGISTERS
    requires Machine.InOrder(c, AllPassed(c), ints, ints', sses, sses', |c.params|)
    ensures AllFound(c, ints', sses', Written(m, Writes(c)))
  {
    var m' := Written(m, Writes(c));
    WritableMeansMapped(m, Writes(c));
    forall i | 0 <= i < |c.params| && !OnStack(c, i)
      ensures HasOwn(ints', Used(c, i).ints, Words(c.params[i], Passed(c, i), Integer))
      ensures HasOwn(sses', Used(c, i).sses, Words(c.params[i], Passed(c, i), Sse))
    {
      OwnRegistersHold(c, ints, sses, i);
    }
    if Room(c) {
      AllBytesHeld(c, m);
    }
    SeenIsFound(c, ints', sses', m');
  }

  lemma AllBytesHeld(c: Call, m: Space)
    requires Valid(c) && Room(c) && DataMapped(m, Writes(c))
    ensures StackBytesFound(c, Written(m, Writes(c))) && SpillBytesFound(c, Written(m, Writes(c)))
  {
    forall i, b | 0 <= i < |c.params| && OnStack(c, i) && 0 <= b < |Passed(c, i)|
      ensures Overwritten(c, AllPassed(c), i, b) || StackByteFound(c, Written(m, Writes(c)), i, b)
    {
      if !Overwritten(c, AllPassed(c), i, b) {
        StackByteHeld(c, m, i, b);
      }
    }
    forall i, b | 0 <= i < |c.params| && Spilled(c, i) && 0 <= b < |c.args[i].data|
      ensures StackReaches(c, AllPassed(c), RspAfter(c, i + 1) + b) || SpillByteFound(c, Written(m, Writes(c)), i, b)
    {
      if !StackReaches(c, AllPassed(c), RspAfter(c, i + 1) + b) {
        SpillByteHeld(c, m, i, b);
      }
    }
  }

  lemma StackBytesAreFound(c: Call, w: Write, m: Space)
    requires Valid(c) && Room(c) && DataMapped(m, Writes(c)) && w.at + |w.data| <= CalleeRsp(c)
    ensures StackBytesFound(c, Written(m, Writes(c) + [w]))
  {
    forall i, b | 0 <= i < |c.params| && OnStack(c, i) && 0 <= b < |Passed(c, i)|
      ensures Overwritten(c, AllPassed(c), i, b) || StackByteFound(c, Written(m, Writes(c) + [w]), i, b)
    {
      if !Overwritten(c, AllPassed(c), i, b) {
        StackByteHeld(c, m, i, b);
        ReturnAddressBelow(m, Writes(c), w, SlotFor(c, AllPassed(c), i) + b);
      }
    }
  }

  lemma SpillByteHeld(c: Call, m: Space, i: nat, b: nat)
    requires Valid(c) && Room(c) && i < |c.params| && Spilled(c, i) && b < |c.args[i].data| && DataMapped(m, Writes(c))
    requires !StackReaches(c, AllPassed(c), RspAfter(c, i + 1) + b)
    ensures SpillByteFound(c, Written(m, Writes(c)), i, b)
  {
    var k := |SpillWrites(c, i)|;
    SpillWriteAt(c, i, |c.params|);
    assert Writes(c)[k] == SpillWrites(c, |c.params|)[k];
    WriteIsMapped(m, Writes(c), k, b);
    SpillByteShows(c, AllPassed(c), i, b, m);
  }

  lemma SpillIsAbove(c: Call, i: nat)
    requires Valid(c) && Room(c) && i < |c.params| && Spilled(c, i)
    ensures CalleeRsp(c) <= RspAfter(c, i + 1)
  {
    SpillWriteAt(c, i, |c.params|);
    CalleeBelow(c, AllPassed(c));
    SpillsDescend(c, |c.params|);
    assert Within(SpillWrites(c, |c.params|)[|SpillWrites(c, i)|], RspAfter(c, |c.params|), c.rsp);
  }

  lemma SpillBytesAreFound(c: Call, w: Write, m: Space)
    requires Valid(c) && Room(c) && DataMapped(m, Writes(c)) && w.at + |w.data| <= CalleeRsp(c)
    ensures SpillBytesFound(c, Written(m, Writes(c) + [w]))
  {
    forall i, b | 0 <= i < |c.params| && Spilled(c, i) && 0 <= b < |c.args[i].data|
      ensures StackReaches(c, AllPassed(c), RspAfter(c, i + 1) + b) || SpillByteFound(c, Written(m, Writes(c) + [w]), i, b)
    {
      if !StackReaches(c, AllPassed(c), RspAfter(c, i + 1) + b) {
        SpillByteHeld(c, m, i, b);
        SpillIsAbove(c, i);
        ReturnAddressBelow(m, Writes(c), w, RspAfter(c, i + 1) + b);
      }
    }
  }

  lemma ElsewhereIsSame(c: Call, w: Write, m: Space)
    requires Valid(c) && Room(c) && w.at + |w.data| <= CalleeRsp(c)
    ensures SameElsewhere(c, m, Written(m, Writes(c) + [w]), w.at)
  {
    forall x | x in m && !(w.at <= x < c.rsp) && !StackReaches(c, AllPassed(c), x)
      ensures Written(m, Writes(c) + [w])[x] == m[x]
    {
      CalleeBelow(c, AllPassed(c));
      ElsewhereUncovered(c, AllPassed(c), x);
      UncoveredKept(m, Writes(c), x);
      ReturnAddressBelow(m, Writes(c), w, x);
    }
  }

  lemma ReturnAddressHeld(m: Space, ws: seq<Write>, w: Write)
    requires AllWritable(m, ws + [w])
    ensures DataMapped(m, ws) && Holds(Written(m, ws + [w]), w)
  {
    WritableMeansMapped(m, ws + [w]);
    WritableSplit(m, ws + [w]);
    assert (ws + [w])[..|ws|] == ws;
    WritableMeansMapped(m, ws);
    WrittenOneMore(m, ws, w);
    assert (ws + [w])[|ws|] == w;
    assert Mapped(m, w.at, |w.data|);
    StoreHolds(Written(m, ws), w);
  }

  lemma CalleeFindsBytes(c: Call, returnTo: nat, m: Space)
    requires Valid(c) && Room(c) && AllWritable(m, Machine.CallWrites(c, returnTo))
    ensures CalleeSeesBytes(c, returnTo, m, Written(m, Machine.CallWrites(c, returnTo)), Sub64(CalleeRsp(c), 8))
  {
    var w := Write(Sub64(CalleeRsp(c), 8), ToBytes(returnTo, 8));
    CalleeBelow(c, AllPassed(c));
    ReturnAddressHeld(m, Writes(c), w);
    StackBytesAreFound(c, w, m);
    SpillBytesAreFound(c, w, m);
    ElsewhereIsSame(c, w, m);
  }

  /** A parameter not on the stack has all its eightbytes of a class in registers of its own, after those before. */
  lemma CalleeFindsInRegisters(c: Call, regs: seq<Register>, at: nat, i: nat, k: Class)
    requires Valid(c) && i < |c.params| && !OnStack(c, i)
    requires at + |RegisterValues(c, AllPassed(c), |c.params|, k)| <= |regs|
    ensures var first := at + |RegisterValues(c, AllPassed(c), i, k)|;
            var regs', n := Put(regs, at, RegisterValues(c, AllPassed(c), |c.params|, k)), Taken(c.params[i], k);
            first + n <= |regs'| && regs'[first..first + n] == Words(c.params[i], Passed(c, i), k)
  {
    var data, n := AllPassed(c), |c.params|;
    OwnFollows(c, data, i, k);
    SliceOfPut(regs, at, RegisterValues(c, data, n, k), RegisterValues(c, data, i, k), Words(c.params[i], data[i], k));
  }

  lemma OwnFollows(c: Call, data: seq<seq<Byte>>, i: nat, k: Class)
    requires Valid(c) && i < |c.params| == |data| && !OnStack(c, i)
    ensures RegisterValues(c, data, i, k) + Words(c.params[i], data[i], k) <= RegisterValues(c, data, |c.params|, k)
  {
    RegisterValuesGrow(c, data, i + 1, |c.params|, k);
  }

  lemma OwnRegistersHold(c: Call, ints: seq<Register>, sses: seq<Register>, i: nat)
    requires Valid(c) && Decided(c) && |ints| == INT_REGISTERS && |sses| == SSE_REGISTERS
    requires i < |c.params| && !OnStack(c, i)
    ensures var data, n := AllPassed(c), |c.params|;
            && HasOwn(Put(ints, c.reserved, RegisterValues(c, data, n, Integer)), Used(c, i).ints,
                      Words(c.params[i], Passed(c, i), Integer))
            && HasOwn(Put(sses, 0, RegisterValues(c, data, n, Sse)), Used(c, i).sses,
                      Words(c.params[i], Passed(c, i), Sse))
  {
    CountersMatch(c, AllPassed(c), i);
    CountersMatch(c, AllPassed(c), |c.params|);
    CalleeFindsInRegisters(c, ints, c.reserved, i, Integer);
    CalleeFindsInRegisters(c, sses, 0, i, Sse);
  }

  /** What a call that goes through gives the callee, registers and memory. */
  lemma CallIsSound(ret: Option<Type>, params: seq<Type>, args: seq<Arg>, rsp: nat, returnTo: nat, m: Space,
                    ints: seq<Register>, sses: seq<Register>)
    requires |args| == |params| && rsp < MODULUS && |ints| == INT_REGISTERS && |sses| == SSE_REGISTERS
    ensures AllClassified(params) ==>
              var c := Machine.CallOf(ret, params, args, rsp);
              && (forall ints', sses' | Machine.InOrder(c, AllPassed(c), ints, ints', sses, sses', |c.params|) ::
                    InOwnRegisters(c, ints', sses'))
              && (Room(c) && AllWritable(m, Machine.CallWrites(c, returnTo)) ==>
                    CalleeSeesBytes(c, returnTo, m, Written(m, Machine.CallWrites(c, returnTo)), Sub64(CalleeRsp(c), 8)))
              && (Fits(c) && AllWritable(m, Machine.CallWrites(c, returnTo)) ==>
                    CalleeSees(c, returnTo, m, Written(m, Machine.CallWrites(c, returnTo)), Sub64(CalleeRsp(c), 8)))
  {
    if AllClassified(params) {
      var c := Machine.CallOf(ret, params, args, rsp);
      Machine.CallIsDecided(ret, params, args, rsp);
      forall i | 0 <= i < |c.params| && !OnStack(c, i)
        ensures var data, n := AllPassed(c), |c.params|;
                && HasOwn(Put(ints, c.reserved, RegisterValues(c, data, n, Integer)), Used(c, i).ints,
                          Words(c.params[i], Passed(c, i), Integer))
                && HasOwn(Put(sses, 0, RegisterValues(c, data, n, Sse)), Used(c, i).sses,
                          Words(c.params[i], Passed(c, i), Sse))
      {
        OwnRegistersHold(c, ints, sses, i);
      }
      if Room(c) && AllWritable(m, Machine.CallWrites(c, returnTo)) {
        CalleeFindsBytes(c, returnTo, m);
      }
      if Fits(c) && AllWritable(m, Machine.CallWrites(c, returnTo)) {
        CalleeFinds(c, returnTo, m);
      }
    }
  }

  // ---- the red zone ----

  /** The write changes bytes of the 128 below the stack pointer, which section 3.2.2 of the ABI keeps for the function. */
  predicate MeetsRedZone(w: Write, rsp: nat) {
    |w.data| > 0 && w.at < rsp && rsp - 128 < w.at + |w.data|
  }

  ghost predicate AnyMeetsRedZone(ws: seq<Write>, rsp: nat) {
    exists k | 0 <= k < |ws| :: MeetsRedZone(ws[k], rsp)
  }

  /**
    The return address is written into the caller's red zone exactly if the
    callee's stack pointer is less than 128 bytes below the caller's.
   */
  lemma RedZoneIff(c: Call, returnTo: nat)
    requires Valid(c) && Room(c)
    ensures MeetsRedZone(Write(Sub64(CalleeRsp(c), 8), ToBytes(returnTo, 8)), c.rsp) <==> CalleeRsp(c) > c.rsp - 128
  {
    CalleeBelow(c, AllPassed(c));
  }

  /** It is where the arguments need little memory. */
  lemma SmallCallMeetsRedZone(c: Call)
    requires Valid(c) && Room(c)
    requires var l := StackArgs(c, AllPassed(c), |c.params|); SpillRoom(c, |c.params|) + Total(l, |l|) + 15 < 128
    ensures CalleeRsp(c) > c.rsp - 128
  {
    var l := StackArgs(c, AllPassed(c), |c.params|);
    SpillsDescend(c, |c.params|);
    BelowSubtracts(RspAfter(c, |c.params|), l, |l|);
    MaskAligns16(RspAfter(c, |c.params|) - Total(l, |l|));
  }

  /** A copied argument has data and leaves less than 128 bytes unused, alignment included. */
  predicate SpillFills(a: Arg) {
    a.data != [] && a.size + Mask(a.alignment) < |a.data| + 128
  }

  /** A stack argument leaves no more than 112 bytes of its slot unused, and none if it has no data. */
  predicate SlotFills(a: StackArg) {
    if a.data == [] then a.size == 0 else a.size <= |a.data| + 112
  }

  predicate ArgumentsFill(c: Call)
    requires Valid(c)
  {
    && (forall i | 0 <= i < |c.params| && Spilled(c, i) :: SpillFills(c.args[i]))
    && (forall a | a in StackArgs(c, AllPassed(c), |c.params|) :: SlotFills(a))
  }

  predicate SlotMeets(l: seq<StackArg>, base: nat, k: nat, rsp: nat)
    requires k < |l|
  {
    MeetsRedZone(Write(base + Total(l, k), l[k].data), rsp)
  }

  /** Slots that reach up to less than 16 bytes below the stack pointer: one meets the red zone, or there is none. */
  lemma {:induction false} SlotsMeetRedZone(l: seq<StackArg>, base: nat, rsp: nat, n: nat)
    requires n <= |l| && (forall a | a in l :: SlotFills(a)) && base + Total(l, n) > rsp - 16
    ensures base > rsp - 16 || exists k | 0 <= k < n :: SlotMeets(l, base, k, rsp)
  {
    if n > 0 {
      assert SlotFills(l[n - 1]);
      if l[n - 1].data == [] || base + Total(l, n - 1) >= rsp {
        SlotsMeetRedZone(l, base, rsp, n - 1);
      } else {
        assert SlotMeets(l, base, n - 1, rsp);
      }
    }
  }

  /** The first copied argument is. */
  lemma {:induction false} FirstSpillMeetsRedZone(c: Call, n: nat)
    requires Valid(c) && Room(c) && ArgumentsFill(c) && n <= |c.params|
    ensures (RspAfter(c, n) == c.rsp && SpillWrites(c, n) == []) || AnyMeetsRedZone(SpillWrites(c, n), c.rsp)
  {
    if n > 0 {
      FirstSpillMeetsRedZone(c, n - 1);
      if Spilled(c, n - 1) {
        var before, ws, a := SpillWrites(c, n - 1), SpillWrites(c, n), c.args[n - 1];
        if before == [] {
          assert SpillFills(a);
          SpillRoomGrows(c, n, |c.params|);
          FirstSpillReaches(c.rsp, a);
          assert MeetsRedZone(ws[0], c.rsp);
        } else {
          var k :| 0 <= k < |before| && MeetsRedZone(before[k], c.rsp);
          assert MeetsRedZone(ws[k], c.rsp);
        }
      }
    }
  }

  lemma FirstSpillReaches(rsp: nat, a: Arg)
    requires rsp < MODULUS && a.size + Mask(a.alignment) <= rsp && |a.data| <= a.size && SpillFills(a)
    ensures MeetsRedZone(Write(SpillTo(rsp, a), a.data), rsp)
  {
    SpillGoesBelow(rsp, a);
  }

  lemma {:induction false} SpillRoomGrows(c: Call, i: nat, n: nat)
    requires Valid(c) && i <= n <= |c.params|
    ensures SpillRoom(c, i) <= SpillRoom(c, n)
    decreases n
  {
    if i < n {
      SpillRoomGrows(c, i, n - 1);
    }
  }

  lemma PartMeetsRedZone(ws: seq<Write>, all: seq<Write>, at: nat, rsp: nat)
    requires at + |ws| <= |all| && all[at..at + |ws|] == ws && AnyMeetsRedZone(ws, rsp)
    ensures AnyMeetsRedZone(all, rsp)
  {
    var k :| 0 <= k < |ws| && MeetsRedZone(ws[k], rsp);
    assert all[at + k] == all[at..at + |ws|][k];
  }

  /** Every call for which there is room and whose arguments fill what is reserved for them writes into the red zone. */
  lemma EveryCallMeetsRedZone(c: Call, returnTo: nat)
    requires Valid(c) && Room(c) && ArgumentsFill(c)
    ensures AnyMeetsRedZone(Machine.CallWrites(c, returnTo), c.rsp)
  {
    var spills, ws, all := SpillWrites(c, |c.params|), Writes(c), Machine.CallWrites(c, returnTo);
    var l, base := StackArgs(c, AllPassed(c), |c.params|), CalleeRsp(c);
    FirstSpillMeetsRedZone(c, |c.params|);
    if AnyMeetsRedZone(spills, c.rsp) {
      PartMeetsRedZone(spills, all, 0, c.rsp);
    } else {
      TopSlotIsNear(c);
      SlotsMeetRedZone(l, base, c.rsp, |l|);
      if base > c.rsp - 16 {
        RedZoneIff(c, returnTo);
        assert MeetsRedZone(all[|ws|], c.rsp);
      } else {
        var k :| 0 <= k < |l| && SlotMeets(l, base, k, c.rsp);
        CallStackFrom(c, AllPassed(c));
        StackWriteOf(ws, |spills|, base, l, k);
        assert MeetsRedZone(all[|spills| + k], c.rsp);
      }
    }
  }

  /** The last slot ends less than 16 bytes below what has been copied. */
  lemma TopSlotIsNear(c: Call)
    requires Valid(c) && Room(c)
    ensures var l := StackArgs(c, AllPassed(c), |c.params|);
            CalleeRsp(c) + Total(l, |l|) > RspAfter(c, |c.params|) - 16
  {
    var l := StackArgs(c, AllPassed(c), |c.params|);
    SpillsDescend(c, |c.params|);
    BelowSubtracts(RspAfter(c, |c.params|), l, |l|);
    MaskAligns16(RspAfter(c, |c.params|) - Total(l, |l|));
  }

  lemma FullSlotFills(data: seq<Byte>, size: nat)
    requires |data| == size
    ensures SlotFills(StackArg(data, RoundUpToEightbyte(size)))
  {
    RoundsUp(size);
  }

  lemma {:induction false} FullSlotsFill(c: Call, n: nat)
    requires Valid(c) && n <= |c.params|
    requires forall i | 0 <= i < n && OnStack(c, i) :: |Passed(c, i)| == c.params[i].size
    ensures forall a | a in StackArgs(c, AllPassed(c), n) :: SlotFills(a)
  {
    if n > 0 {
      FullSlotsFill(c, n - 1);
      FullSlotFills(Passed(c, n - 1), if OnStack(c, n - 1) then c.params[n - 1].size else |Passed(c, n - 1)|);
    }
  }

  /** Arguments as large as their types say, copied ones aligned to at most 128 bytes: the call writes into the red zone. */
  lemma FullCallMeetsRedZone(c: Call, returnTo: nat)
    requires Valid(c) && Room(c)
    requires forall i | 0 <= i < |c.params| && Spilled(c, i) ::
               |c.args[i].data| == c.args[i].size > 0 && 1 <= c.args[i].alignment <= 128
    requires forall i | 0 <= i < |c.params| && OnStack(c, i) :: |Passed(c, i)| == c.params[i].size
    ensures AnyMeetsRedZone(Machine.CallWrites(c, returnTo), c.rsp)
  {
    FullSlotsFill(c, |c.params|);
    EveryCallMeetsRedZone(c, returnTo);
  }

  /** Calling a function without parameters writes its return address into the red zone. */
  lemma EmptyCallMeetsRedZone(rsp: nat, returnTo: nat)
    requires 64 <= rsp < MODULUS
    ensures var c := Call([], [], 0, rsp, []);
            Valid(c) && Fits(c) && AnyMeetsRedZone(Machine.CallWrites(c, returnTo), rsp)
  {
    var c := Call([], [], 0, rsp, []);
    assert StackArgs(c, AllPassed(c), 0) == [];
    EveryCallMeetsRedZone(c, returnTo);
  }
}
