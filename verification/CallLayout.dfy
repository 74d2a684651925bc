/**
  Where an inferior call puts its arguments: setup_arguments, and the return
  address that process::inferior_call pushes (System V AMD64 ABI, sections 3.2.2
  and 3.2.3).  Words are 64 bits wide and the stack pointer wraps around.
 */
module CallLayout {
  import opened Options
  import opened Memory
  import opened Leb128
  import opened ParameterClasses

  const INT_REGISTERS: nat := 6
  const SSE_REGISTERS: nat := 8

  /** What the layout depends on in a parameter's type. */
  datatype Param = Param(size: nat, classes: Classes, isReference: bool)

  /** An argument: its bytes, its own type's size and alignment, and where it lives if it lives in memory. */
  datatype Arg = Arg(data: seq<Byte>, size: nat, alignment: nat, address: Option<Address>)

  /**
    A call: `reserved` integer registers are taken by the return slot, rsp is the
    caller's, and `stacked` says which parameters go on the stack.
   */
  datatype Call = Call(params: seq<Param>, args: seq<Arg>, reserved: nat, rsp: nat, stacked: seq<bool>)

  predicate Valid(c: Call) {
    |c.args| == |c.params| == |c.stacked| && c.reserved <= 1 && c.rsp < MODULUS
  }

  // ---- 64-bit arithmetic ----

  /** x & ~m. */
  function AndNot(x: nat, m: nat): nat {
    if x == 0 then 0 else
    2 * AndNot(x / 2, m / 2) + if x % 2 == 1 && m % 2 == 0 then 1 else 0
  }

  function Sub64(a: nat, b: nat): nat {
    if b <= a then a - b else (a - b) % MODULUS
  }

  function Add64(a: nat, b: nat): nat {
    if a + b < MODULUS then a + b else (a + b) % MODULUS
  }

  lemma {:induction false} AndNotBounds(x: nat, m: nat)
    ensures x - m <= AndNot(x, m) <= x
  {
    if x > 0 {
      AndNotBounds(x / 2, m / 2);
    }
  }

  /** Clearing the low k bits gives the last multiple of 2^k at or below x. */
  lemma {:induction false} MaskAligns(x: nat, k: nat) returns (q: nat)
    ensures AndNot(x, Pow2(k) - 1) == q * Pow2(k) && q * Pow2(k) <= x < q * Pow2(k) + Pow2(k)
    decreases k
  {
    if k == 0 {
      q := x;
      MaskNothing(x);
    } else {
      q := MaskAligns(x / 2, k - 1);
      DoubleProduct(q, Pow2(k - 1));
      HalfMask(x, Pow2(k - 1));
    }
  }

  lemma DoubleProduct(q: nat, p: nat)
    ensures q * (2 * p) == 2 * (q * p)
  {
  }

  lemma HalfMask(x: nat, p: nat)
    requires p >= 1
    ensures AndNot(x, 2 * p - 1) == 2 * AndNot(x / 2, p - 1)
  {
    assert (2 * p - 1) / 2 == p - 1 && (2 * p - 1) % 2 == 1;
  }

  lemma {:induction false} MaskNothing(x: nat)
    ensures AndNot(x, 0) == x
  {
    if x > 0 {
      MaskNothing(x / 2);
    }
  }

  lemma MaskAligns16(x: nat)
    ensures AndNot(x, 15) % 16 == 0 && x - 15 <= AndNot(x, 15) <= x
  {
    AndNotBounds(x, 15);
    PowerIs16(4);
    var q := MaskAligns(x, 4);
    SixteenTimes(q);
  }

  lemma PowerIs16(k: nat)
    requires k == 4
    ensures Pow2(k) == 16
  {
    assert Pow2(k - 3) == 2 * Pow2(k - 4) && Pow2(k - 2) == 2 * Pow2(k - 3) && Pow2(k - 1) == 2 * Pow2(k - 2);
  }

  lemma SixteenTimes(q: nat)
    ensures q * 16 % 16 == 0
  {
  }

  function RoundUpToEightbyte(size: nat): nat {
    AndNot(size + 7, 7)
  }

  lemma RoundsUp(size: nat)
    ensures RoundUpToEightbyte(size) % 8 == 0 && size <= RoundUpToEightbyte(size) < size + 8
  {
    PowerIs16(4);
    var q := MaskAligns(size + 7, 3);
    EightTimes(q);
  }

  lemma EightTimes(q: nat)
    ensures q * 8 % 8 == 0
  {
  }

  /** to_byte_vec of a 64-bit word, low bytes first. */
  function ToBytes(x: nat, n: nat): (s: seq<Byte>)
    ensures |s| == n
    decreases n
  {
    if n == 0 then [] else [x % 256] + ToBytes(x / 256, n - 1)
  }

  // ---- registers ----

  function ClassAt(c: Classes, j: nat): Class {
    if j == 0 then c.first else c.second
  }

  /** Eightbyte j of the parameter is passed in class k. */
  predicate Occupies(p: Param, j: nat, k: Class) {
    8 * j < p.size && ClassAt(p.classes, j) == k
  }

  /** The eight bytes held by a register. */
  datatype Register = Register(bytes: seq<Byte>)

  /** Eight bytes of the data, filled up with zeros. */
  function Eightbyte(data: seq<Byte>, j: nat): (w: Register)
  {
    var rest := if 8 * j <= |data| then data[8 * j..] else [];
    Register(if |rest| >= 8 then rest[..8] else rest + Zeros(8 - |rest|))
  }

  lemma EightbyteBytes(data: seq<Byte>, j: nat)
    ensures var w := Eightbyte(data, j);
            |w.bytes| == 8 && forall b | 0 <= b < 8 :: w.bytes[b] == if 8 * j + b < |data| then data[8 * j + b] else 0
  {
  }

  /** How many registers of class k the parameter takes. */
  function Taken(p: Param, k: Class): (n: nat)
    ensures n <= Count(p.classes, k)
  {
    (if Occupies(p, 0, k) then 1 else 0) + (if Occupies(p, 1, k) then 1 else 0)
  }

  function Word(p: Param, data: seq<Byte>, j: nat, k: Class): seq<Register> {
    if Occupies(p, j, k) then [Eightbyte(data, j)] else []
  }

  /** The parameter's eightbytes of class k, in order. */
  function Words(p: Param, data: seq<Byte>, k: Class): (ws: seq<Register>)
    ensures |ws| == Taken(p, k)
  {
    Word(p, data, 0, k) + Word(p, data, 1, k)
  }

  datatype Counters = Counters(ints: nat, sses: nat)

  predicate Overflows(u: Counters, c: Classes) {
    || u.ints + Count(c, Integer) > INT_REGISTERS
    || u.sses + Count(c, Sse) > SSE_REGISTERS
    || !TakesRegisters(c)
  }

  /** The registers taken before parameter i. */
  function Used(c: Call, i: nat): Counters
    requires Valid(c) && i <= |c.params|
  {
    if i == 0 then Counters(c.reserved, 0) else
    var u, p := Used(c, i - 1), c.params[i - 1];
    if OnStack(c, i - 1) then u
    else Counters(u.ints + Taken(p, Integer), u.sses + Taken(p, Sse))
  }

  predicate OnStack(c: Call, i: nat)
    requires Valid(c) && i < |c.params|
  {
    c.stacked[i]
  }

  /** Exactly those parameters go on the stack that need no register or more than are left. */
  ghost predicate Decided(c: Call)
    requires Valid(c)
  {
    forall i | 0 <= i < |c.params| :: DecidedAt(c, i)
  }

  predicate DecidedAt(c: Call, i: nat)
    requires Valid(c) && i < |c.params|
  {
    OnStack(c, i) <==> Overflows(Used(c, i), c.params[i].classes)
  }

  /** The decisions for the parameters after those that have taken u. */
  function Decide(ps: seq<Param>, u: Counters): (s: seq<bool>)
    ensures |s| == |ps|
  {
    if ps == [] then []
    else if Overflows(u, ps[0].classes) then [true] + Decide(ps[1..], u)
    else [false] + Decide(ps[1..], Counters(u.ints + Taken(ps[0], Integer), u.sses + Taken(ps[0], Sse)))
  }

  lemma {:induction false} DecideDecides(c: Call, i: nat)
    requires Valid(c) && i <= |c.params| && c.stacked[i..] == Decide(c.params[i..], Used(c, i))
    ensures forall k | i <= k < |c.params| :: DecidedAt(c, k)
    decreases |c.params| - i
  {
    if i < |c.params| {
      assert c.params[i..][0] == c.params[i] && c.params[i..][1..] == c.params[i + 1..];
      assert c.stacked[i..][0] == c.stacked[i] && c.stacked[i..][1..] == c.stacked[i + 1..];
      DecideDecides(c, i + 1);
    }
  }

  /** The eightbytes of class k of all parameters before i that go in registers. */
  function RegisterValues(c: Call, data: seq<seq<Byte>>, i: nat, k: Class): seq<Register>
    requires Valid(c) && i <= |c.params| == |data|
  {
    if i == 0 then []
    else if OnStack(c, i - 1) then RegisterValues(c, data, i - 1, k)
    else RegisterValues(c, data, i - 1, k) + Words(c.params[i - 1], data[i - 1], k)
  }

  lemma {:induction false} CountersBounded(c: Call, i: nat)
    requires Valid(c) && Decided(c) && i <= |c.params|
    ensures Used(c, i).ints <= INT_REGISTERS && Used(c, i).sses <= SSE_REGISTERS
  {
    if i > 0 {
      CountersBounded(c, i - 1);
      assert DecidedAt(c, i - 1);
    }
  }

  lemma {:induction false} CountOfClass(c: Call, data: seq<seq<Byte>>, i: nat, k: Class)
    requires Valid(c) && i <= |c.params| == |data| && (k == Integer || k == Sse)
    ensures |RegisterValues(c, data, i, k)| == if k == Integer then Used(c, i).ints - c.reserved else Used(c, i).sses
  {
    if i > 0 {
      CountOfClass(c, data, i - 1, k);
    }
  }

  /** The counters stay within the registers there are and count exactly the values in them. */
  lemma CountersMatch(c: Call, data: seq<seq<Byte>>, i: nat)
    requires Valid(c) && Decided(c) && i <= |c.params| == |data|
    ensures Used(c, i).ints == c.reserved + |RegisterValues(c, data, i, Integer)| <= INT_REGISTERS
    ensures Used(c, i).sses == |RegisterValues(c, data, i, Sse)| <= SSE_REGISTERS
  {
    CountersBounded(c, i);
    CountOfClass(c, data, i, Integer);
    CountOfClass(c, data, i, Sse);
  }

  /**
    A parameter goes on the stack exactly if it has no eightbyte with a register
    class, or the six integer registers less the one for the return slot, or the
    eight SSE registers, are too few for it after what earlier parameters have put
    there.
   */
  lemma OnStackIff(c: Call, data: seq<seq<Byte>>, i: nat)
    requires Valid(c) && Decided(c) && i < |c.params| == |data|
    ensures var k := c.params[i].classes;
            var ints := (if k.first == Integer then 1 else 0) + if k.second == Integer then 1 else 0;
            var sses := (if k.first == Sse then 1 else 0) + if k.second == Sse then 1 else 0;
            OnStack(c, i) <==>
            || ints + sses == 0
            || |RegisterValues(c, data, i, Integer)| + ints > 6 - c.reserved
            || |RegisterValues(c, data, i, Sse)| + sses > 8
  {
    assert DecidedAt(c, i);
    CountersMatch(c, data, i);
  }

  function Put<T>(s: seq<T>, at: nat, values: seq<T>): (r: seq<T>)
    ensures |r| == |s|
  {
    if at + |values| <= |s| then s[..at] + values + s[at + |values|..] else s
  }

  lemma PutTwice<T>(s: seq<T>, at: nat, a: seq<T>, b: seq<T>)
    requires at + |a| + |b| <= |s|
    ensures Put(Put(s, at, a), at + |a|, b) == Put(s, at, a + b)
  {
  }

  lemma PutNone<T>(s: seq<T>, at: nat)
    ensures Put(s, at, []) == s
  {
  }

  lemma PutOne<T>(s: seq<T>, at: nat, x: T)
    requires at < |s|
    ensures Put(s, at, [x]) == s[at := x]
  {
  }

  /** What is put after a prefix of the values is found right after it. */
  lemma SliceOfPut<T>(s: seq<T>, at: nat, values: seq<T>, before: seq<T>, own: seq<T>)
    requires before + own <= values && at + |values| <= |s|
    ensures var a := at + |before|;
            a + |own| <= |s| && Put(s, at, values)[a..a + |own|] == own
  {
    assert forall k | 0 <= k < |own| :: values[|before| + k] == (before + own)[|before| + k] == own[k];
  }

  /** The switch over an eightbyte's class knows all classes of the parameter, which has at most two. */
  predicate Supported(p: Param) {
    p.size <= 16 && Known(p, 0) && Known(p, 1)
  }

  predicate Known(p: Param, j: nat) {
    8 * j < p.size ==> Occupies(p, j, Integer) || Occupies(p, j, Sse) || Occupies(p, j, NoClass)
  }

  function Describe(t: Type): Param
    requires Classify(t).Some?
  {
    Param(ByteSize(t), Classify(t).value, IsReference(t))
  }

  /** A parameter without long double and without a large undeclared reference is always supported. */
  lemma X87FreeIsSupported(t: Type)
    requires X87Free(t) && Classify(t).Some? && TakesRegisters(Classify(t).value)
    requires IsReference(t) ==> ByteSize(t) <= 16
    ensures Supported(Describe(t))
  {
    X87FreeIsPlain(t);
    RegisterClassesFit(t);
  }

  // ---- memory ----

  datatype Write = Write(at: nat, data: seq<Byte>)

  function Written(m: Space, ws: seq<Write>): (m': Space)
    ensures m'.Keys == m.Keys
  {
    if ws == [] then m else
    var last := ws[|ws| - 1];
    Stored(Written(m, ws[..|ws| - 1]), last.at, last.data)
  }

  /** Every word that write_memory touches is mapped. */
  predicate Writable(m: Space, w: Write) {
    Mapped(m, w.at, RoundUpToWord(|w.data|))
  }

  predicate AllWritable(m: Space, ws: seq<Write>) {
    forall k | 0 <= k < |ws| :: Writable(m, ws[k])
  }

  predicate Within(w: Write, lo: int, hi: int) {
    lo <= w.at && w.at + |w.data| <= hi
  }

  predicate AllWithin(ws: seq<Write>, lo: int, hi: int) {
    forall k | 0 <= k < |ws| :: Within(ws[k], lo, hi)
  }

  predicate Apart(v: Write, w: Write) {
    v.at + |v.data| <= w.at || w.at + |w.data| <= v.at
  }

  predicate Separated(ws: seq<Write>) {
    forall i, j | 0 <= i < j < |ws| :: Apart(ws[i], ws[j])
  }

  predicate Holds(m: Space, w: Write) {
    forall x | w.at <= x < w.at + |w.data| :: x in m && m[x] == w.data[x - w.at]
  }

  lemma StoreKeeps(m: Space, v: Write, w: Write)
    requires Holds(m, v) && Apart(v, w)
    ensures Holds(Stored(m, w.at, w.data), v)
  {
  }

  lemma StoreHolds(m: Space, w: Write)
    requires Mapped(m, w.at, |w.data|)
    ensures Holds(Stored(m, w.at, w.data), w)
  {
  }

  predicate DataMapped(m: Space, ws: seq<Write>) {
    forall k | 0 <= k < |ws| :: Mapped(m, ws[k].at, |ws[k].data|)
  }

  ghost predicate SameOutside(m: Space, m': Space, lo: int, hi: int) {
    m.Keys == m'.Keys && forall x | x in m && !(lo <= x < hi) :: m'[x] == m[x]
  }

  /** Separate writes are all still there in the end. */
  lemma {:induction false} SeparateWritesHold(m: Space, ws: seq<Write>, k: nat)
    requires k < |ws| && Separated(ws) && DataMapped(m, ws)
    ensures Holds(Written(m, ws), ws[k])
    decreases |ws|
  {
    var n := |ws| - 1;
    var front := ws[..n];
    if k == n {
      StoreHolds(Written(m, front), ws[n]);
    } else {
      SeparateWritesHold(m, front, k);
      assert front[k] == ws[k];
      StoreKeeps(Written(m, front), ws[k], ws[n]);
    }
  }

  /** Nothing changes outside the writes. */
  lemma {:induction false} WritesFrame(m: Space, ws: seq<Write>, lo: int, hi: int)
    requires AllWithin(ws, lo, hi)
    ensures SameOutside(m, Written(m, ws), lo, hi)
    decreases |ws|
  {
    if ws != [] {
      var n := |ws| - 1;
      assert forall k | 0 <= k < n :: ws[..n][k] == ws[k];
      WritesFrame(m, ws[..n], lo, hi);
      assert Within(ws[n], lo, hi);
    }
  }

  lemma AppendSeparated(ws: seq<Write>, w: Write, lo: int, mid: int, hi: int)
    requires Separated(ws) && AllWithin(ws, lo, mid) && Within(w, mid, hi)
    ensures Separated(ws + [w])
  {
    assert forall k | 0 <= k < |ws| :: (ws + [w])[k] == ws[k] && Within(ws[k], lo, mid);
  }

  /** Separate writes above a boundary and separate writes below it. */
  lemma JoinSeparated(above: seq<Write>, below: seq<Write>, lo: int, mid: int, hi: int)
    requires Separated(above) && Separated(below) && AllWithin(above, mid, hi) && AllWithin(below, lo, mid)
    requires lo <= mid <= hi
    ensures Separated(above + below) && AllWithin(above + below, lo, hi)
  {
    var ws := above + below;
    forall k | 0 <= k < |ws| ensures Within(ws[k], lo, hi) {
      assert if k < |above| then ws[k] == above[k] && Within(above[k], mid, hi)
             else ws[k] == below[k - |above|] && Within(below[k - |above|], lo, mid);
    }
    forall i, j | 0 <= i < j < |ws| ensures Apart(ws[i], ws[j]) {
      if j < |above| {
        assert Apart(above[i], above[j]);
      } else if i >= |above| {
        assert Apart(below[i - |above|], below[j - |above|]);
      } else {
        assert Within(above[i], mid, hi) && Within(below[j - |above|], lo, mid);
      }
    }
  }

  // ---- references ----

  function Mask(alignment: nat): nat {
    Sub64(alignment, 1)
  }

  predicate Spilled(c: Call, i: nat)
    requires Valid(c) && i < |c.params|
  {
    c.params[i].isReference && c.args[i].address.None?
  }

  /** The stack pointer once the arguments before i that a reference needs in memory are there. */
  function RspAfter(c: Call, i: nat): (rsp: nat)
    requires Valid(c) && i <= |c.params|
    ensures rsp < MODULUS
  {
    if i == 0 then c.rsp
    else if Spilled(c, i - 1) then SpillTo(RspAfter(c, i - 1), c.args[i - 1])
    else RspAfter(c, i - 1)
  }

  function SpillTo(rsp: nat, a: Arg): (r: nat)
    requires rsp < MODULUS
    ensures r < MODULUS
  {
    AndNotBounds(Sub64(rsp, a.size), Mask(a.alignment));
    AndNot(Sub64(rsp, a.size), Mask(a.alignment))
  }

  function SpillWrites(c: Call, i: nat): seq<Write>
    requires Valid(c) && i <= |c.params|
  {
    if i == 0 then []
    else if Spilled(c, i - 1) then SpillWrites(c, i - 1) + [Write(RspAfter(c, i), c.args[i - 1].data)]
    else SpillWrites(c, i - 1)
  }

  /** What is passed for parameter i: a pointer for a reference, the argument itself otherwise. */
  function Passed(c: Call, i: nat): seq<Byte>
    requires Valid(c) && i < |c.params|
  {
    if !c.params[i].isReference then c.args[i].data
    else if c.args[i].address.Some? then ToBytes(c.args[i].address.value, 8)
    else ToBytes(RspAfter(c, i + 1), 8)
  }

  function AllPassed(c: Call): (r: seq<seq<Byte>>)
    requires Valid(c)
    ensures |r| == |c.params|
  {
    seq(|c.params|, i requires 0 <= i < |c.params| => Passed(c, i))
  }

  // ---- stack arguments ----

  datatype StackArg = StackArg(data: seq<Byte>, size: nat)

  function StackArgs(c: Call, data: seq<seq<Byte>>, i: nat): seq<StackArg>
    requires Valid(c) && i <= |c.params| == |data|
  {
    if i == 0 then []
    else if !OnStack(c, i - 1) then StackArgs(c, data, i - 1)
    else StackArgs(c, data, i - 1) + [StackArg(data[i - 1], RoundUpToEightbyte(c.params[i - 1].size))]
  }

  /** The size of the first k slots. */
  function Total(l: seq<StackArg>, k: nat): (n: nat)
    requires k <= |l|
  {
    if k == 0 then 0 else Total(l, k - 1) + l[k - 1].size
  }

  function Below(rsp: nat, l: seq<StackArg>, k: nat): (r: nat)
    requires k <= |l| && rsp < MODULUS
    ensures r < MODULUS
  {
    if k == 0 then rsp else Sub64(Below(rsp, l, k - 1), l[k - 1].size)
  }

  /** The stack pointer the function is called with. */
  function FinalRsp(rsp: nat, l: seq<StackArg>): (r: nat)
    requires rsp < MODULUS
    ensures r < MODULUS
  {
    AndNotBounds(Below(rsp, l, |l|), 15);
    AndNot(Below(rsp, l, |l|), 15)
  }

  function SlotAt(rsp: nat, l: seq<StackArg>, k: nat): (a: nat)
    requires k <= |l| && rsp < MODULUS
    ensures a < MODULUS
  {
    if k == 0 then rsp else Add64(SlotAt(rsp, l, k - 1), l[k - 1].size)
  }

  function StackWrites(rsp: nat, l: seq<StackArg>, k: nat): (ws: seq<Write>)
    requires k <= |l| && rsp < MODULUS
    ensures |ws| == k
  {
    if k == 0 then [] else StackWrites(rsp, l, k - 1) + [Write(SlotAt(rsp, l, k - 1), l[k - 1].data)]
  }

  // ---- the layout ----

  /** How far the first i parameters can move the stack pointer down. */
  function SpillRoom(c: Call, i: nat): nat
    requires Valid(c) && i <= |c.params|
  {
    if i == 0 then 0
    else SpillRoom(c, i - 1) + if Spilled(c, i - 1) then c.args[i - 1].size + Mask(c.args[i - 1].alignment) else 0
  }

  predicate SpillsFit(c: Call)
    requires Valid(c)
  {
    forall i | 0 <= i < |c.params| && Spilled(c, i) :: |c.args[i].data| <= c.args[i].size
  }

  predicate SlotsFit(l: seq<StackArg>) {
    forall k | 0 <= k < |l| :: |l[k].data| <= l[k].size
  }

  /** One spilled argument lies below all there is so far, aligned downwards. */
  lemma SpillGoesBelow(rsp: nat, a: Arg)
    requires rsp < MODULUS && a.size + Mask(a.alignment) <= rsp
    ensures rsp - a.size - Mask(a.alignment) <= SpillTo(rsp, a) && SpillTo(rsp, a) + a.size <= rsp
  {
    AndNotBounds(Sub64(rsp, a.size), Mask(a.alignment));
  }

  /** A spilled argument is aligned as its type asks. */
  lemma SpillIsAligned(rsp: nat, a: Arg, k: nat) returns (q: nat)
    requires rsp < MODULUS && a.alignment == Pow2(k)
    ensures SpillTo(rsp, a) == q * a.alignment
  {
    q := MaskAligns(Sub64(rsp, a.size), k);
  }

  /** Spilled arguments lie one below the other, between the stack pointer before and after. */
  lemma {:induction false} SpillsDescend(c: Call, i: nat)
    requires Valid(c) && SpillsFit(c) && i <= |c.params| && SpillRoom(c, i) <= c.rsp
    ensures c.rsp - SpillRoom(c, i) <= RspAfter(c, i) <= c.rsp
    ensures Separated(SpillWrites(c, i)) && AllWithin(SpillWrites(c, i), RspAfter(c, i), c.rsp)
  {
    if i > 0 {
      SpillsDescend(c, i - 1);
      if Spilled(c, i - 1) {
        SpillGoesBelow(RspAfter(c, i - 1), c.args[i - 1]);
        var w := Write(RspAfter(c, i), c.args[i - 1].data);
        JoinSeparated(SpillWrites(c, i - 1), [w], RspAfter(c, i), RspAfter(c, i - 1), c.rsp);
      }
    }
  }

  lemma {:induction false} BelowSubtracts(rsp: nat, l: seq<StackArg>, k: nat)
    requires k <= |l| && rsp < MODULUS && Total(l, k) <= rsp
    ensures Below(rsp, l, k) == rsp - Total(l, k)
  {
    if k > 0 {
      BelowSubtracts(rsp, l, k - 1);
    }
  }

  lemma {:induction false} SlotAddress(rsp: nat, l: seq<StackArg>, k: nat)
    requires k <= |l| && rsp + Total(l, k) < MODULUS
    ensures SlotAt(rsp, l, k) == rsp + Total(l, k)
  {
    if k > 0 {
      SlotAddress(rsp, l, k - 1);
    }
  }

  /** Stack arguments lie one above the other in their slots. */
  lemma {:induction false} SlotsAscend(rsp: nat, l: seq<StackArg>, k: nat)
    requires k <= |l| && rsp + Total(l, k) < MODULUS && SlotsFit(l)
    ensures Separated(StackWrites(rsp, l, k)) && AllWithin(StackWrites(rsp, l, k), rsp, rsp + Total(l, k))
  {
    if k > 0 {
      SlotsAscend(rsp, l, k - 1);
      SlotAddress(rsp, l, k - 1);
      var w := Write(SlotAt(rsp, l, k - 1), l[k - 1].data);
      AppendSeparated(StackWrites(rsp, l, k - 1), w, rsp, rsp + Total(l, k - 1), rsp + Total(l, k));
    }
  }

  /** The writes of a call for which these bytes are passed. */
  function WritesFor(c: Call, data: seq<seq<Byte>>): seq<Write>
    requires Valid(c) && |data| == |c.params|
  {
    var l := StackArgs(c, data, |c.params|);
    SpillWrites(c, |c.params|) + StackWrites(RspFor(c, data), l, |l|)
  }

  /** The stack pointer the function is called with. */
  function RspFor(c: Call, data: seq<seq<Byte>>): (rsp: nat)
    requires Valid(c) && |data| == |c.params|
    ensures rsp < MODULUS
  {
    FinalRsp(RspAfter(c, |c.params|), StackArgs(c, data, |c.params|))
  }

  /** There is room below the stack pointer, return address included, and copied arguments are as large as their types say. */
  predicate RoomFor(c: Call, data: seq<seq<Byte>>)
    requires Valid(c) && |data| == |c.params|
  {
    var l := StackArgs(c, data, |c.params|);
    SpillsFit(c) && SpillRoom(c, |c.params|) + Total(l, |l|) + 15 + 8 <= c.rsp
  }

  /** Where the slot of parameter i starts. */
  function SlotFor(c: Call, data: seq<seq<Byte>>, i: nat): nat
    requires Valid(c) && i < |c.params| == |data|
  {
    var l := StackArgs(c, data, i);
    RspFor(c, data) + Total(l, |l|)
  }

  function Writes(c: Call): seq<Write>
    requires Valid(c)
  {
    WritesFor(c, AllPassed(c))
  }

  function CalleeRsp(c: Call): (rsp: nat)
    requires Valid(c)
    ensures rsp < MODULUS
  {
    RspFor(c, AllPassed(c))
  }

  predicate Room(c: Call)
    requires Valid(c)
  {
    RoomFor(c, AllPassed(c))
  }

  /** In addition every stack argument fits its slot. */
  predicate Fits(c: Call)
    requires Valid(c)
  {
    Room(c) && SlotsFit(StackArgs(c, AllPassed(c), |c.params|))
  }

  /** All that a call writes is apart, between the callee's stack pointer and the caller's. */
  lemma LayoutSeparated(c: Call)
    requires Valid(c) && Fits(c)
    ensures CalleeRsp(c) % 16 == 0 && 8 <= CalleeRsp(c) <= c.rsp
    ensures Separated(Writes(c)) && AllWithin(Writes(c), CalleeRsp(c), c.rsp)
  {
    var n := |c.params|;
    var l := StackArgs(c, AllPassed(c), n);
    var top, rsp := RspAfter(c, n), CalleeRsp(c);
    SpillsDescend(c, n);
    CalleeBelow(c, AllPassed(c));
    SlotsAscend(rsp, l, |l|);
    var below := StackWrites(rsp, l, |l|);
    forall k | 0 <= k < |below| ensures Within(below[k], rsp, top) {
      assert Within(below[k], rsp, rsp + Total(l, |l|));
    }
    JoinSeparated(SpillWrites(c, n), below, rsp, top, c.rsp);
  }

  // ---- one argument ----

  lemma {:induction false} RegisterValuesGrow(c: Call, data: seq<seq<Byte>>, i: nat, n: nat, k: Class)
    requires Valid(c) && i <= n <= |c.params| == |data|
    ensures RegisterValues(c, data, i, k) <= RegisterValues(c, data, n, k)
    decreases n
  {
    if i < n {
      RegisterValuesGrow(c, data, i, n - 1, k);
      if !OnStack(c, n - 1) {
        PrefixAppend(RegisterValues(c, data, i, k), RegisterValues(c, data, n - 1, k), Words(c.params[n - 1], data[n - 1], k));
      }
    }
  }

  lemma PrefixAppend<T>(a: seq<T>, b: seq<T>, c: seq<T>)
    requires a <= b
    ensures a <= b + c
  {
  }

  lemma {:induction false} StackArgsGrow(c: Call, data: seq<seq<Byte>>, i: nat, n: nat)
    requires Valid(c) && i <= n <= |c.params| == |data|
    ensures StackArgs(c, data, i) <= StackArgs(c, data, n)
    decreases n
  {
    if i < n {
      StackArgsGrow(c, data, i, n - 1);
      PrefixAppend(StackArgs(c, data, i), StackArgs(c, data, n - 1), StackArgs(c, data, n)[|StackArgs(c, data, n - 1)|..]);
    }
  }

  lemma {:induction false} SpillWritesGrow(c: Call, i: nat, n: nat)
    requires Valid(c) && i <= n <= |c.params|
    ensures SpillWrites(c, i) <= SpillWrites(c, n)
    decreases n
  {
    if i < n {
      SpillWritesGrow(c, i, n - 1);
    }
  }

  lemma {:induction false} StackWritesGrow(rsp: nat, l: seq<StackArg>, k: nat, n: nat)
    requires k <= n <= |l| && rsp < MODULUS
    ensures StackWrites(rsp, l, k) <= StackWrites(rsp, l, n)
    decreases n
  {
    if k < n {
      StackWritesGrow(rsp, l, k, n - 1);
    }
  }

  lemma {:induction false} TotalOfPrefix(l: seq<StackArg>, l': seq<StackArg>, k: nat)
    requires l <= l' && k <= |l|
    ensures Total(l, k) == Total(l', k)
  {
    if k > 0 {
      TotalOfPrefix(l, l', k - 1);
    }
  }

  lemma {:induction false} TotalGrows(l: seq<StackArg>, k: nat, n: nat)
    requires k <= n <= |l|
    ensures Total(l, k) <= Total(l, n)
    decreases n
  {
    if k < n {
      TotalGrows(l, k, n - 1);
    }
  }

  lemma SumOfWords(a: nat, b: nat)
    requires a % 8 == 0 && b % 8 == 0
    ensures (a + b) % 8 == 0
  {
  }

  /** Slots are whole words. */
  lemma {:induction false} SlotsAreWords(c: Call, data: seq<seq<Byte>>, i: nat)
    requires Valid(c) && i <= |c.params| == |data|
    ensures var l := StackArgs(c, data, i); Total(l, |l|) % 8 == 0
  {
    if i > 0 {
      SlotsAreWords(c, data, i - 1);
      if OnStack(c, i - 1) {
        var l, l', size := StackArgs(c, data, i - 1), StackArgs(c, data, i), RoundUpToEightbyte(c.params[i - 1].size);
        TotalOfPrefix(l, l', |l|);
        assert Total(l', |l'|) == Total(l, |l|) + size;
        RoundsUp(c.params[i - 1].size);
        SumOfWords(Total(l, |l|), size);
      }
    }
  }

  lemma SlotWritten(rsp: nat, l: seq<StackArg>, k: nat)
    requires k < |l| && rsp + Total(l, k) < MODULUS
    ensures StackWrites(rsp, l, |l|)[k] == Write(rsp + Total(l, k), l[k].data)
  {
    SlotAddress(rsp, l, k);
    StackWritesGrow(rsp, l, k + 1, |l|);
  }

  lemma SlotIsAligned(c: Call, i: nat)
    requires Valid(c) && Room(c) && i < |c.params| && OnStack(c, i)
    ensures SlotFor(c, AllPassed(c), i) % 8 == 0
  {
    var l := StackArgs(c, AllPassed(c), i);
    CalleeBelow(c, AllPassed(c));
    SlotsAreWords(c, AllPassed(c), i);
    SixteenIsTwoWords(CalleeRsp(c));
    SumOfWords(CalleeRsp(c), Total(l, |l|));
  }

  lemma SixteenIsTwoWords(x: nat)
    requires x % 16 == 0
    ensures x % 8 == 0
  {
  }

  /** No slot address wraps around. */
  predicate NoCarry(rsp: nat, l: seq<StackArg>) {
    rsp + Total(l, |l|) < MODULUS
  }

  /** All slots end below what has been spilled. */
  lemma CalleeBelow(c: Call, data: seq<seq<Byte>>)
    requires Valid(c) && |data| == |c.params| && RoomFor(c, data)
    ensures var l, rsp := StackArgs(c, data, |c.params|), RspFor(c, data);
            && rsp % 16 == 0 && 8 <= rsp && NoCarry(rsp, l)
            && rsp + Total(l, |l|) <= RspAfter(c, |c.params|) <= c.rsp
  {
    var l := StackArgs(c, data, |c.params|);
    SpillsDescend(c, |c.params|);
    BelowSubtracts(RspAfter(c, |c.params|), l, |l|);
    MaskAligns16(RspAfter(c, |c.params|) - Total(l, |l|));
  }

  /** A spilled argument is written where its pointer points. */
  lemma OwnSpill(c: Call, i: nat)
    requires Valid(c) && i < |c.params| && Spilled(c, i)
    ensures Write(RspAfter(c, i + 1), c.args[i].data) in Writes(c)
    ensures Passed(c, i) == ToBytes(RspAfter(c, i + 1), 8)
  {
    var n := |c.params|;
    SpillWritesGrow(c, i + 1, n);
    var k := |SpillWrites(c, i)|;
    assert SpillWrites(c, n)[k] == Write(RspAfter(c, i + 1), c.args[i].data);
    assert Writes(c)[k] == SpillWrites(c, n)[k];
  }

  /** The word a pointer's bytes stand for. */
  lemma {:induction false} BytesReadBack(x: nat, n: nat, data: seq<Byte>, pos: nat)
    requires pos + n <= |data| && data[pos..pos + n] == ToBytes(x, n) && x < Pow2(8 * n)
    ensures ReadFixed(data, pos, n) == Some((x, pos + n))
    decreases n
  {
    if n > 0 {
      assert data[pos] == x % 256;
      assert data[pos + 1..pos + n] == data[pos..pos + n][1..];
      Pow2Add(8, 8 * (n - 1));
      Pow2Add(4, 4);
      assert Pow2(4) == 16;
      assert x / 256 < Pow2(8 * (n - 1));
      BytesReadBack(x / 256, n - 1, data, pos + 1);
    }
  }
}
