/**
  What the callee of an inferior call finds for each argument, in terms of the
  argument itself: its own bytes for a value, and for a reference the address at
  which the argument lives or has been copied to.
 */
module ArgumentsFound {
  import opened Options
  import opened Memory
  import opened Leb128
  import opened ParameterClasses
  import opened CallLayout
  import opened StackArrival

  /** Byte b of stack parameter i stands in its slot. */
  predicate StackByteFound(c: Call, m: Space, i: nat, b: nat)
    requires Valid(c) && i < |c.params| && b < |Passed(c, i)|
  {
    var x := SlotFor(c, AllPassed(c), i) + b;
    x in m && m[x] == Passed(c, i)[b]
  }

  /** Byte b of the argument copied for parameter i stands where its pointer points. */
  predicate SpillByteFound(c: Call, m: Space, i: nat, b: nat)
    requires Valid(c) && i < |c.params| && b < |c.args[i].data|
  {
    var x := RspAfter(c, i + 1) + b;
    x in m && m[x] == c.args[i].data[b]
  }

  ghost predicate StackBytesFound(c: Call, m: Space)
    requires Valid(c)
  {
    forall i, b | 0 <= i < |c.params| && OnStack(c, i) && 0 <= b < |Passed(c, i)| ::
      Overwritten(c, AllPassed(c), i, b) || StackByteFound(c, m, i, b)
  }

  ghost predicate SpillBytesFound(c: Call, m: Space)
    requires Valid(c)
  {
    forall i, b | 0 <= i < |c.params| && Spilled(c, i) && 0 <= b < |c.args[i].data| ::
      StackReaches(c, AllPassed(c), RspAfter(c, i + 1) + b) || SpillByteFound(c, m, i, b)
  }

  /** Every parameter not on the stack has its integer and SSE eightbytes in registers of its own. */
  ghost predicate InOwnRegisters(c: Call, ints: seq<Register>, sses: seq<Register>)
    requires Valid(c)
  {
    forall i | 0 <= i < |c.params| && !OnStack(c, i) ::
      && HasOwn(ints, Used(c, i).ints, Words(c.params[i], Passed(c, i), Integer))
      && HasOwn(sses, Used(c, i).sses, Words(c.params[i], Passed(c, i), Sse))
  }

  predicate HasOwn(regs: seq<Register>, first: nat, words: seq<Register>) {
    first + |words| <= |regs| && regs[first..first + |words|] == words
  }

  // ---- in terms of the arguments ----

  /** The pointer's eight bytes are the argument's own address, or one at which memory holds the argument's bytes. */
  ghost predicate PointsTo(c: Call, m: Space, i: nat, bytes: seq<Byte>)
    requires Valid(c) && i < |c.params|
  {
    && |bytes| == 8
    && var x, a := LittleEndian(bytes), c.args[i];
       if a.address.Some? then x == a.address.value
       else Room(c) ==> forall b | 0 <= b < |a.data| :: ByteAt(c, m, x, a.data, b)
  }

  /** Byte b of the data stands at x + b, unless a stack argument is written over it. */
  ghost predicate ByteAt(c: Call, m: Space, x: nat, data: seq<Byte>, b: nat)
    requires Valid(c) && b < |data|
  {
    StackReaches(c, AllPassed(c), x + b) || (x + b in m && m[x + b] == data[b])
  }

  /** What parameter i is to be passed. */
  ghost predicate Intended(c: Call, m: Space, i: nat, bytes: seq<Byte>)
    requires Valid(c) && i < |c.params|
  {
    if c.params[i].isReference then PointsTo(c, m, i, bytes) else bytes == c.args[i].data
  }

  /** The register holds eightbyte j of the bytes, filled up with zeros. */
  predicate WordIn(regs: seq<Register>, r: nat, bytes: seq<Byte>, j: nat) {
    && r < |regs| && |regs[r].bytes| == 8
    && forall b | 0 <= b < 8 :: regs[r].bytes[b] == if 8 * j + b < |bytes| then bytes[8 * j + b] else 0
  }

  /** The parameter's eightbytes of class k are in the registers from `first` on, in order. */
  predicate WordsIn(p: Param, regs: seq<Register>, first: nat, bytes: seq<Byte>, k: Class) {
    && (Occupies(p, 0, k) ==> WordIn(regs, first, bytes, 0))
    && (Occupies(p, 1, k) ==> WordIn(regs, if Occupies(p, 0, k) then first + 1 else first, bytes, 1))
  }

  /** Byte b of the bytes stands in the slot of parameter i, unless a later argument is written over it. */
  ghost predicate ByteInSlot(c: Call, m: Space, i: nat, bytes: seq<Byte>, b: nat)
    requires Valid(c) && i < |c.params| && b < |bytes|
  {
    var x := SlotFor(c, AllPassed(c), i) + b;
    Overwritten(c, AllPassed(c), i, b) || (x in m && m[x] == bytes[b])
  }

  /** The callee finds these bytes for parameter i: in its slot, or in the next registers of their classes. */
  ghost predicate Finds(c: Call, ints: seq<Register>, sses: seq<Register>, m: Space, i: nat, bytes: seq<Byte>)
    requires Valid(c) && i < |c.params|
  {
    if OnStack(c, i) then Room(c) ==> forall b | 0 <= b < |bytes| :: ByteInSlot(c, m, i, bytes, b)
    else WordsIn(c.params[i], ints, Used(c, i).ints, bytes, Integer) && WordsIn(c.params[i], sses, Used(c, i).sses, bytes, Sse)
  }

  ghost predicate ArgumentFound(c: Call, ints: seq<Register>, sses: seq<Register>, m: Space, i: nat)
    requires Valid(c) && i < |c.params|
  {
    exists bytes :: Intended(c, m, i, bytes) && Finds(c, ints, sses, m, i, bytes)
  }

  /** For each parameter the callee finds what it is to be passed. */
  ghost predicate AllFound(c: Call, ints: seq<Register>, sses: seq<Register>, m: Space)
    requires Valid(c)
  {
    forall i | 0 <= i < |c.params| :: ArgumentFound(c, ints, sses, m, i)
  }

  // ---- where the slots are ----

  ghost predicate NoneOnStack(c: Call, lo: nat, hi: nat)
    requires Valid(c) && hi <= |c.params|
  {
    forall k | lo <= k < hi :: !OnStack(c, k)
  }

  /** The first stack parameter's slot starts at the address, and each next slot at the first eightbyte boundary after the last. */
  ghost predicate SlotsFrom(c: Call, at: nat)
    requires Valid(c)
  {
    && (forall i | 0 <= i < |c.params| && OnStack(c, i) && NoneOnStack(c, 0, i) :: SlotFor(c, AllPassed(c), i) == at)
    && (forall i, j | 0 <= i < j < |c.params| && OnStack(c, i) && OnStack(c, j) && NoneOnStack(c, i + 1, j) ::
          Adjacent(c, i, j))
  }

  ghost predicate Adjacent(c: Call, i: nat, j: nat)
    requires Valid(c) && i < j < |c.params|
  {
    var n := SlotFor(c, AllPassed(c), j) - SlotFor(c, AllPassed(c), i);
    n % 8 == 0 && c.params[i].size <= n < c.params[i].size + 8
  }

  lemma {:induction false} SameStackArgs(c: Call, data: seq<seq<Byte>>, lo: nat, hi: nat)
    requires Valid(c) && lo <= hi <= |c.params| == |data| && NoneOnStack(c, lo, hi)
    ensures StackArgs(c, data, hi) == StackArgs(c, data, lo)
    decreases hi
  {
    if lo < hi {
      SameStackArgs(c, data, lo, hi - 1);
    }
  }

  lemma NextSlot(c: Call, data: seq<seq<Byte>>, i: nat, j: nat)
    requires Valid(c) && i < j < |c.params| == |data| && OnStack(c, i) && NoneOnStack(c, i + 1, j)
    ensures SlotFor(c, data, j) == SlotFor(c, data, i) + RoundUpToEightbyte(c.params[i].size)
  {
    SameStackArgs(c, data, i + 1, j);
    TotalOfPrefix(StackArgs(c, data, i), StackArgs(c, data, i + 1), |StackArgs(c, data, i)|);
  }

  lemma SlotsFromBottom(c: Call)
    requires Valid(c)
    ensures SlotsFrom(c, CalleeRsp(c))
  {
    var data := AllPassed(c);
    forall i | 0 <= i < |c.params| && OnStack(c, i) && NoneOnStack(c, 0, i)
      ensures SlotFor(c, data, i) == CalleeRsp(c)
    {
      SameStackArgs(c, data, 0, i);
    }
    forall i, j | 0 <= i < j < |c.params| && OnStack(c, i) && OnStack(c, j) && NoneOnStack(c, i + 1, j)
      ensures Adjacent(c, i, j)
    {
      NextSlot(c, data, i, j);
      RoundsUp(c.params[i].size);
    }
  }

  lemma WordReadsBack(x: Address)
    ensures LittleEndian(ToBytes(x, 8)) == x
  {
    var bytes := ToBytes(x, 8);
    assert bytes[0..0 + 8] == bytes;
    Pow2Of64();
    BytesReadBack(x, 8, bytes, 0);
    FixedIsLittleEndian(bytes, 0, 8);
  }

  /** Bytes for parameter i: the argument's own, or a pointer to where it lives or to its copy on the stack. */
  predicate IsPassed(c: Call, i: nat, bytes: seq<Byte>)
    requires Valid(c) && i < |c.params|
  {
    if !c.params[i].isReference then bytes == c.args[i].data
    else |bytes| == 8 && LittleEndian(bytes) ==
           if c.args[i].address.Some? then c.args[i].address.value else RspAfter(c, i + 1)
  }

  lemma PassedMeans(c: Call, i: nat)
    requires Valid(c) && i < |c.params|
    ensures IsPassed(c, i, Passed(c, i))
  {
    if c.params[i].isReference {
      WordReadsBack(if c.args[i].address.Some? then c.args[i].address.value else RspAfter(c, i + 1));
    }
  }

  /** A pointer to where the argument lives or has been copied to. */
  lemma PassedPoints(c: Call, m: Space, i: nat)
    requires Valid(c) && i < |c.params| && c.params[i].isReference && (Room(c) ==> SpillBytesFound(c, m))
    ensures PointsTo(c, m, i, Passed(c, i))
  {
    PassedMeans(c, i);
    if c.args[i].address.None? && Room(c) {
      var x := RspAfter(c, i + 1);
      forall b | 0 <= b < |c.args[i].data| ensures ByteAt(c, m, x, c.args[i].data, b) {
        assert Spilled(c, i) && (StackReaches(c, AllPassed(c), x + b) || SpillByteFound(c, m, i, b));
      }
    }
  }

  lemma OwnWordsIn(p: Param, regs: seq<Register>, first: nat, bytes: seq<Byte>, k: Class)
    requires HasOwn(regs, first, Words(p, bytes, k))
    ensures WordsIn(p, regs, first, bytes, k)
  {
    var words := Words(p, bytes, k);
    forall r | 0 <= r < |words| ensures regs[first + r] == words[r] {
      assert regs[first..first + |words|][r] == words[r];
    }
    if Occupies(p, 0, k) {
      assert words[0] == Eightbyte(bytes, 0);
      HeldWord(regs, first, bytes, 0);
    }
    if Occupies(p, 1, k) {
      var r := if Occupies(p, 0, k) then 1 else 0;
      assert words[r] == Eightbyte(bytes, 1);
      HeldWord(regs, first + r, bytes, 1);
    }
  }

  lemma HeldWord(regs: seq<Register>, r: nat, bytes: seq<Byte>, j: nat)
    requires r < |regs| && regs[r] == Eightbyte(bytes, j)
    ensures WordIn(regs, r, bytes, j)
  {
    EightbyteBytes(bytes, j);
  }

  lemma PassedIsFound(c: Call, ints: seq<Register>, sses: seq<Register>, m: Space, i: nat)
    requires Valid(c) && i < |c.params| && InOwnRegisters(c, ints, sses) && (Room(c) ==> StackBytesFound(c, m))
    ensures Finds(c, ints, sses, m, i, Passed(c, i))
  {
    if !OnStack(c, i) {
      OwnWordsIn(c.params[i], ints, Used(c, i).ints, Passed(c, i), Integer);
      OwnWordsIn(c.params[i], sses, Used(c, i).sses, Passed(c, i), Sse);
    } else if Room(c) {
      forall b | 0 <= b < |Passed(c, i)| ensures ByteInSlot(c, m, i, Passed(c, i), b) {
        assert Overwritten(c, AllPassed(c), i, b) || StackByteFound(c, m, i, b);
      }
    }
  }

  lemma SeenIsFound(c: Call, ints: seq<Register>, sses: seq<Register>, m: Space)
    requires Valid(c) && InOwnRegisters(c, ints, sses)
    requires Room(c) ==> StackBytesFound(c, m) && SpillBytesFound(c, m)
    ensures AllFound(c, ints, sses, m)
  {
    forall i | 0 <= i < |c.params| ensures ArgumentFound(c, ints, sses, m, i) {
      PassedIsFound(c, ints, sses, m, i);
      if c.params[i].isReference {
        PassedPoints(c, m, i);
      }
      assert Intended(c, m, i, Passed(c, i));
    }
  }

  /** A reference in a register: the register, read as a number, is the argument's address or that of its copy. */
  lemma ReferenceInRegister(c: Call, ints: seq<Register>, sses: seq<Register>, m: Space, i: nat)
    requires Valid(c) && AllFound(c, ints, sses, m) && i < |c.params|
    requires c.params[i].isReference && !OnStack(c, i) && Occupies(c.params[i], 0, Integer)
    ensures Used(c, i).ints < |ints| && PointsTo(c, m, i, ints[Used(c, i).ints].bytes)
  {
    assert ArgumentFound(c, ints, sses, m, i);
    var bytes :| Intended(c, m, i, bytes) && Finds(c, ints, sses, m, i, bytes);
    assert WordIn(ints, Used(c, i).ints, bytes, 0);
    assert ints[Used(c, i).ints].bytes == bytes;
  }
}
