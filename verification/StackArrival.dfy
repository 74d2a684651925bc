/**
  What the stack holds once a call is set up, byte by byte: stack arguments are
  written from the bottom up, so that one that is larger than its slot is
  overwritten by the next ones, or reaches into what lies above.
 */
module StackArrival {
  import opened Options
  import opened Memory
  import opened CallLayout

  predicate Covers(w: Write, x: nat) {
    w.at <= x < w.at + |w.data|
  }

  /** Some write from k on covers x. */
  ghost predicate CoveredFrom(ws: seq<Write>, k: nat, x: nat) {
    exists j | k <= j < |ws| :: Covers(ws[j], x)
  }

  lemma FrontCovered(ws: seq<Write>, k: nat, x: nat)
    requires k < |ws|
    ensures CoveredFrom(ws, k, x) <==> Covers(ws[|ws| - 1], x) || CoveredFrom(ws[..|ws| - 1], k, x)
  {
    var n := |ws| - 1;
    if CoveredFrom(ws, k, x) {
      var j :| k <= j < |ws| && Covers(ws[j], x);
      assert j < n ==> ws[..n][j] == ws[j];
    }
    if CoveredFrom(ws[..n], k, x) {
      var j :| k <= j < n && Covers(ws[..n][j], x);
      assert ws[j] == ws[..n][j];
    }
  }

  /** A byte that no write covers keeps its value. */
  lemma {:induction false} UncoveredKept(m: Space, ws: seq<Write>, x: nat)
    requires x in m && !CoveredFrom(ws, 0, x)
    ensures Written(m, ws)[x] == m[x]
    decreases |ws|
  {
    if ws != [] {
      FrontCovered(ws, 0, x);
      UncoveredKept(m, ws[..|ws| - 1], x);
    }
  }

  /** A covered byte has the value of the last write that covers it. */
  lemma {:induction false} LastWriteShows(m: Space, ws: seq<Write>, k: nat, x: nat)
    requires k < |ws| && x in m && Covers(ws[k], x) && !CoveredFrom(ws, k + 1, x)
    ensures Written(m, ws)[x] == ws[k].data[x - ws[k].at]
    decreases |ws|
  {
    var n := |ws| - 1;
    if k < n {
      FrontCovered(ws, k + 1, x);
      assert ws[..n][k] == ws[k];
      LastWriteShows(m, ws[..n], k, x);
    }
  }

  lemma {:induction false} LastCovering(ws: seq<Write>, x: nat) returns (k: nat)
    requires CoveredFrom(ws, 0, x)
    ensures k < |ws| && Covers(ws[k], x) && !CoveredFrom(ws, k + 1, x)
    decreases |ws|
  {
    var n := |ws| - 1;
    if Covers(ws[n], x) {
      k := n;
    } else {
      FrontCovered(ws, 0, x);
      k := LastCovering(ws[..n], x);
      assert ws[..n][k] == ws[k];
      FrontCovered(ws, k + 1, x);
    }
  }

  /** The same writes, one of them with other data of the same length. */
  predicate OneChanged(ws: seq<Write>, ws': seq<Write>, k: nat) {
    && k < |ws| == |ws'| && ws'[k].at == ws[k].at && |ws'[k].data| == |ws[k].data|
    && forall j | 0 <= j < |ws| && j != k :: ws'[j] == ws[j]
  }

  lemma SameAt(ws: seq<Write>, ws': seq<Write>, k: nat, j: nat)
    requires OneChanged(ws, ws', k) && j < |ws|
    ensures ws'[j].at == ws[j].at && |ws'[j].data| == |ws[j].data|
  {
  }

  lemma SameCoverage(ws: seq<Write>, ws': seq<Write>, k: nat, i: nat, x: nat)
    requires OneChanged(ws, ws', k)
    ensures CoveredFrom(ws, i, x) <==> CoveredFrom(ws', i, x)
  {
    if CoveredFrom(ws, i, x) {
      var j :| i <= j < |ws| && Covers(ws[j], x);
      SameAt(ws, ws', k, j);
      assert Covers(ws'[j], x);
    }
    if CoveredFrom(ws', i, x) {
      var j :| i <= j < |ws'| && Covers(ws'[j], x);
      SameAt(ws, ws', k, j);
      assert Covers(ws[j], x);
    }
  }

  /** Where the changed write agrees, or a later one covers, nothing shows. */
  lemma ChangeHidden(m: Space, ws: seq<Write>, ws': seq<Write>, k: nat, x: nat)
    requires OneChanged(ws, ws', k) && x in m
    requires Covers(ws[k], x) ==> ws'[k].data[x - ws[k].at] == ws[k].data[x - ws[k].at] || CoveredFrom(ws, k + 1, x)
    ensures Written(m, ws)[x] == Written(m, ws')[x]
  {
    SameCoverage(ws, ws', k, 0, x);
    if CoveredFrom(ws, 0, x) {
      var j := LastCovering(ws, x);
      SameCoverage(ws, ws', k, j + 1, x);
      SameAt(ws, ws', k, j);
      LastWriteShows(m, ws, j, x);
      LastWriteShows(m, ws', j, x);
    } else {
      UncoveredKept(m, ws, x);
      UncoveredKept(m, ws', x);
    }
  }

  /** Where nothing covers the changed write later, every change shows. */
  lemma ChangeShows(m: Space, ws: seq<Write>, ws': seq<Write>, k: nat, x: nat)
    requires OneChanged(ws, ws', k) && x in m && Covers(ws[k], x) && !CoveredFrom(ws, k + 1, x)
    requires Written(m, ws)[x] == Written(m, ws')[x]
    ensures ws'[k].data[x - ws[k].at] == ws[k].data[x - ws[k].at]
  {
    SameCoverage(ws, ws', k, k + 1, x);
    LastWriteShows(m, ws, k, x);
    LastWriteShows(m, ws', k, x);
  }

  // ---- stack arguments ----

  /** Stack argument j is written over byte b, counted from the first slot. */
  predicate Reaches(l: seq<StackArg>, j: nat, b: nat)
    requires j < |l|
  {
    Total(l, j) <= b < Total(l, j) + |l[j].data|
  }

  ghost predicate ReachedAfter(l: seq<StackArg>, k: nat, b: nat) {
    exists j | k < j < |l| :: Reaches(l, j, b)
  }

  /** What lies inside a slot is not reached by what comes after. */
  lemma SlotIsIntact(l: seq<StackArg>, k: nat, b: nat)
    requires k < |l| && b < l[k].size
    ensures !ReachedAfter(l, k, Total(l, k) + b)
  {
    var y := Total(l, k) + b;
    forall j | k < j < |l| ensures !Reaches(l, j, y) {
      TotalGrows(l, k + 1, j);
    }
  }

  lemma StackWriteAfter(before: seq<Write>, rsp: nat, l: seq<StackArg>, k: nat)
    requires k < |l| && rsp + Total(l, |l|) < MODULUS
    ensures (before + StackWrites(rsp, l, |l|))[|before| + k] == Write(rsp + Total(l, k), l[k].data)
  {
    TotalGrows(l, k, |l|);
    SlotWritten(rsp, l, k);
  }

  /** From position s on the writes are those of the stack arguments. */
  ghost predicate StackFrom(ws: seq<Write>, s: nat, rsp: nat, l: seq<StackArg>) {
    |ws| == s + |l| && forall j | 0 <= j < |l| :: IsStackWrite(ws, s, rsp, l, j)
  }

  predicate IsStackWrite(ws: seq<Write>, s: nat, rsp: nat, l: seq<StackArg>, j: nat)
    requires |ws| == s + |l| && j < |l|
  {
    ws[s + j] == Write(rsp + Total(l, j), l[j].data)
  }

  lemma ReachesIff(ws: seq<Write>, s: nat, rsp: nat, l: seq<StackArg>, j: nat, b: nat)
    requires StackFrom(ws, s, rsp, l) && j < |l|
    ensures Reaches(l, j, b) <==> Covers(ws[s + j], rsp + b)
  {
    assert IsStackWrite(ws, s, rsp, l, j);
  }

  lemma CoveredIff(ws: seq<Write>, s: nat, rsp: nat, l: seq<StackArg>, k: nat, b: nat)
    requires StackFrom(ws, s, rsp, l) && k < |l|
    ensures ReachedAfter(l, k, Total(l, k) + b) <==> CoveredFrom(ws, s + k + 1, rsp + (Total(l, k) + b))
  {
    var y := Total(l, k) + b;
    if ReachedAfter(l, k, y) {
      var j :| k < j < |l| && Reaches(l, j, y);
      ReachesIff(ws, s, rsp, l, j, y);
    }
    if CoveredFrom(ws, s + k + 1, rsp + y) {
      var i :| s + k + 1 <= i < |ws| && Covers(ws[i], rsp + y);
      var j := i - s;
      assert ws[s + j] == ws[i];
      ReachesIff(ws, s, rsp, l, j, y);
    }
  }

  lemma StackFromJoined(before: seq<Write>, rsp: nat, l: seq<StackArg>)
    requires rsp < MODULUS
    ensures NoCarry(rsp, l) ==> StackFrom(before + StackWrites(rsp, l, |l|), |before|, rsp, l)
  {
    if NoCarry(rsp, l) {
      var ws := before + StackWrites(rsp, l, |l|);
      forall j | 0 <= j < |l| ensures IsStackWrite(ws, |before|, rsp, l, j) {
        StackWriteAfter(before, rsp, l, j);
      }
    }
  }

  lemma CallStackFrom(c: Call, data: seq<seq<Byte>>)
    requires Valid(c) && |data| == |c.params| && RoomFor(c, data)
    ensures StackFrom(WritesFor(c, data), |SpillWrites(c, |c.params|)|, RspFor(c, data), StackArgs(c, data, |c.params|))
  {
    CalleeBelow(c, data);
    StackFromJoined(SpillWrites(c, |c.params|), RspFor(c, data), StackArgs(c, data, |c.params|));
  }

  lemma StackWriteOf(ws: seq<Write>, s: nat, rsp: nat, l: seq<StackArg>, k: nat)
    requires k < |l|
    ensures StackFrom(ws, s, rsp, l) ==> |ws| == s + |l| && ws[s + k] == Write(rsp + Total(l, k), l[k].data)
  {
    assert StackFrom(ws, s, rsp, l) ==> IsStackWrite(ws, s, rsp, l, k);
  }

  // ---- changing one stack argument ----

  lemma {:induction false} StackArgsUpdate(c: Call, data: seq<seq<Byte>>, i: nat, d: seq<Byte>, n: nat)
    requires Valid(c) && i < n <= |c.params| == |data| && OnStack(c, i)
    ensures var k, l, l' := |StackArgs(c, data, i)|, StackArgs(c, data, n), StackArgs(c, data[i := d], n);
            k < |l| && l[k].data == data[i] && l' == l[k := l[k].(data := d)]
    decreases n
  {
    StackArgsSame(c, data, i, d, i);
    if n > i + 1 {
      StackArgsUpdate(c, data, i, d, n - 1);
    }
  }

  lemma {:induction false} StackArgsSame(c: Call, data: seq<seq<Byte>>, i: nat, d: seq<Byte>, n: nat)
    requires Valid(c) && i < |c.params| == |data| && n <= |c.params| && (n <= i || !OnStack(c, i))
    ensures StackArgs(c, data[i := d], n) == StackArgs(c, data, n)
    decreases n
  {
    if n > 0 {
      StackArgsSame(c, data, i, d, n - 1);
    }
  }

  predicate SameSizes(l: seq<StackArg>, l': seq<StackArg>) {
    |l| == |l'| && forall k | 0 <= k < |l| :: l[k].size == l'[k].size
  }

  lemma {:induction false} SizesDecide(l: seq<StackArg>, l': seq<StackArg>, rsp: nat, k: nat)
    requires SameSizes(l, l') && k <= |l| && rsp < MODULUS
    ensures Total(l, k) == Total(l', k) && Below(rsp, l, k) == Below(rsp, l', k)
  {
    if k > 0 {
      SizesDecide(l, l', rsp, k - 1);
    }
  }

  /** Other bytes for one stack argument change one write. */
  lemma ChangedWrites(c: Call, data: seq<seq<Byte>>, i: nat, d: seq<Byte>)
    requires Valid(c) && i < |c.params| == |data| && OnStack(c, i) && RoomFor(c, data) && |d| == |data[i]|
    ensures RoomFor(c, data[i := d]) && RspFor(c, data[i := d]) == RspFor(c, data)
    ensures var k, s := |StackArgs(c, data, i)|, |SpillWrites(c, |c.params|)|;
            var ws, ws' := WritesFor(c, data), WritesFor(c, data[i := d]);
            && OneChanged(ws, ws', s + k) && ws[s + k].data == data[i] && ws'[s + k].data == d
  {
    var n, data' := |c.params|, data[i := d];
    var k, s, l, l' := |StackArgs(c, data, i)|, |SpillWrites(c, n)|, StackArgs(c, data, n), StackArgs(c, data', n);
    StackArgsUpdate(c, data, i, d, n);
    assert SameSizes(l, l');
    SizesDecide(l, l', RspAfter(c, n), |l|);
    var ws, ws' := WritesFor(c, data), WritesFor(c, data');
    CallStackFrom(c, data);
    CallStackFrom(c, data');
    FromChanged(ws, ws', s, RspFor(c, data), l, l', k);
  }

  lemma FromChanged(ws: seq<Write>, ws': seq<Write>, s: nat, rsp: nat, l: seq<StackArg>, l': seq<StackArg>, k: nat)
    requires StackFrom(ws, s, rsp, l) && StackFrom(ws', s, rsp, l') && ws[..s] == ws'[..s] && rsp < MODULUS
    requires k < |l| && SameSizes(l, l') && l' == l[k := l'[k]] && |l'[k].data| == |l[k].data|
    ensures OneChanged(ws, ws', s + k) && ws[s + k].data == l[k].data && ws'[s + k].data == l'[k].data
  {
    forall j | 0 <= j < |ws| ensures j != s + k ==> ws'[j] == ws[j] {
      if j < s {
        assert ws[j] == ws[..s][j] && ws'[j] == ws'[..s][j];
      } else {
        SameWrite(ws, ws', s, rsp, l, l', j - s);
      }
    }
    SameWrite(ws, ws', s, rsp, l, l', k);
  }

  lemma SameWrite(ws: seq<Write>, ws': seq<Write>, s: nat, rsp: nat, l: seq<StackArg>, l': seq<StackArg>, j: nat)
    requires StackFrom(ws, s, rsp, l) && StackFrom(ws', s, rsp, l') && rsp < MODULUS && SameSizes(l, l') && j < |l|
    ensures ws[s + j].at == ws'[s + j].at && ws[s + j].data == l[j].data && ws'[s + j].data == l'[j].data
  {
    SizesDecide(l, l', rsp, j);
    StackWriteOf(ws, s, rsp, l, j);
    StackWriteOf(ws', s, rsp, l', j);
  }

  // ---- what the callee finds on the stack ----

  /** Byte b of parameter i lies where the argument of a later parameter is written. */
  ghost predicate Overwritten(c: Call, data: seq<seq<Byte>>, i: nat, b: nat)
    requires Valid(c) && i < |c.params| == |data|
  {
    var l, k := StackArgs(c, data, |c.params|), |StackArgs(c, data, i)|;
    ReachedAfter(l, k, Total(StackArgs(c, data, i), k) + b)
  }

  lemma OwnStackArg(c: Call, data: seq<seq<Byte>>, i: nat)
    requires Valid(c) && i < |c.params| == |data| && OnStack(c, i)
    ensures var l, l0 := StackArgs(c, data, |c.params|), StackArgs(c, data, i);
            && |l0| < |l| && l[|l0|] == StackArg(data[i], RoundUpToEightbyte(c.params[i].size))
            && Total(l, |l0|) == Total(l0, |l0|)
  {
    var l, l0 := StackArgs(c, data, |c.params|), StackArgs(c, data, i);
    StackArgsGrow(c, data, i, |c.params|);
    StackArgsGrow(c, data, i + 1, |c.params|);
    TotalOfPrefix(l0, l, |l0|);
  }

  /** The position of stack parameter i among the writes. */
  function WriteIndex(c: Call, data: seq<seq<Byte>>, i: nat): nat
    requires Valid(c) && i < |c.params| == |data|
  {
    |SpillWrites(c, |c.params|)| + |StackArgs(c, data, i)|
  }

  lemma OwnWrite(c: Call, data: seq<seq<Byte>>, i: nat)
    requires Valid(c) && i < |c.params| == |data| && OnStack(c, i) && RoomFor(c, data)
    ensures var ws, at := WritesFor(c, data), WriteIndex(c, data, i);
            at < |ws| && ws[at] == Write(SlotFor(c, data, i), data[i])
  {
    OwnStackArg(c, data, i);
    CallStackFrom(c, data);
    StackWriteOf(WritesFor(c, data), |SpillWrites(c, |c.params|)|, RspFor(c, data), StackArgs(c, data, |c.params|),
                 |StackArgs(c, data, i)|);
  }

  /** A byte is overwritten exactly if a later write covers it. */
  lemma OverwrittenIff(c: Call, data: seq<seq<Byte>>, i: nat, b: nat)
    requires Valid(c) && i < |c.params| == |data| && OnStack(c, i) && RoomFor(c, data)
    ensures Overwritten(c, data, i, b) <==>
            CoveredFrom(WritesFor(c, data), WriteIndex(c, data, i) + 1, SlotFor(c, data, i) + b)
  {
    var n := |c.params|;
    var l := StackArgs(c, data, n);
    OwnStackArg(c, data, i);
    CallStackFrom(c, data);
    CoveredIff(WritesFor(c, data), |SpillWrites(c, n)|, RspFor(c, data), l, |StackArgs(c, data, i)|, b);
  }

  /** A stack argument is not overwritten where it lies inside its slot. */
  lemma FittingIsIntact(c: Call, data: seq<seq<Byte>>, i: nat, b: nat)
    requires Valid(c) && i < |c.params| == |data| && OnStack(c, i) && b < RoundUpToEightbyte(c.params[i].size)
    ensures !Overwritten(c, data, i, b)
  {
    OwnStackArg(c, data, i);
    SlotIsIntact(StackArgs(c, data, |c.params|), |StackArgs(c, data, i)|, b);
  }

  /** A byte that is not overwritten stands in its slot in the end. */
  lemma StackByteShows(c: Call, data: seq<seq<Byte>>, i: nat, b: nat, m: Space)
    requires Valid(c) && i < |c.params| == |data| && OnStack(c, i) && RoomFor(c, data)
    requires b < |data[i]| && !Overwritten(c, data, i, b) && SlotFor(c, data, i) + b in m
    ensures Written(m, WritesFor(c, data))[SlotFor(c, data, i) + b] == data[i][b]
  {
    OwnWrite(c, data, i);
    OverwrittenIff(c, data, i, b);
    LastWriteShows(m, WritesFor(c, data), WriteIndex(c, data, i), SlotFor(c, data, i) + b);
  }

  function WithByte(d: seq<Byte>, b: nat, x: Byte): (r: seq<Byte>)
    requires b < |d|
  {
    d[b := x]
  }

  /** An overwritten byte shows nowhere. */
  lemma OverwrittenIsLost(c: Call, data: seq<seq<Byte>>, i: nat, b: nat, x: Byte, m: Space)
    requires Valid(c) && i < |c.params| == |data| && OnStack(c, i) && RoomFor(c, data)
    requires b < |data[i]| && Overwritten(c, data, i, b)
    ensures var data' := data[i := WithByte(data[i], b, x)];
            RspFor(c, data') == RspFor(c, data) && Written(m, WritesFor(c, data)) == Written(m, WritesFor(c, data'))
  {
    var d := WithByte(data[i], b, x);
    var ws, ws' := WritesFor(c, data), WritesFor(c, data[i := d]);
    ChangedWrites(c, data, i, d);
    OwnWrite(c, data, i);
    OverwrittenIff(c, data, i, b);
    forall y | y in m ensures Written(m, ws)[y] == Written(m, ws')[y] {
      ChangeHidden(m, ws, ws', WriteIndex(c, data, i), y);
    }
  }

  /** A stack argument is written over address x. */
  ghost predicate StackReaches(c: Call, data: seq<seq<Byte>>, x: nat)
    requires Valid(c) && |data| == |c.params|
  {
    CoveredFrom(WritesFor(c, data), |SpillWrites(c, |c.params|)|, x)
  }

  lemma {:induction false} SpillWriteAt(c: Call, i: nat, n: nat)
    requires Valid(c) && i < n <= |c.params| && Spilled(c, i)
    ensures var k := |SpillWrites(c, i)|;
            k < |SpillWrites(c, n)| && SpillWrites(c, n)[k] == Write(RspAfter(c, i + 1), c.args[i].data)
  {
    SpillWritesGrow(c, i + 1, n);
  }

  lemma ApartIsUncovered(v: Write, w: Write, x: nat)
    requires Apart(v, w) && Covers(v, x)
    ensures !Covers(w, x)
  {
  }

  lemma SeparateUncovered(ws: seq<Write>, k: nat, x: nat, n: nat)
    requires k < n <= |ws| && Separated(ws[..n]) && Covers(ws[k], x) && !CoveredFrom(ws, n, x)
    ensures !CoveredFrom(ws, k + 1, x)
  {
    if CoveredFrom(ws, k + 1, x) {
      var j :| k + 1 <= j < |ws| && Covers(ws[j], x);
      assert j < n;
      assert ws[..n][k] == ws[k] && ws[..n][j] == ws[j];
      ApartIsUncovered(ws[k], ws[j], x);
    }
  }

  /** A byte of an argument copied for a reference stands where its pointer points, unless a stack argument reaches it. */
  lemma SpillByteShows(c: Call, data: seq<seq<Byte>>, i: nat, b: nat, m: Space)
    requires Valid(c) && i < |c.params| == |data| && Spilled(c, i) && RoomFor(c, data) && b < |c.args[i].data|
    requires RspAfter(c, i + 1) + b in m && !StackReaches(c, data, RspAfter(c, i + 1) + b)
    ensures Written(m, WritesFor(c, data))[RspAfter(c, i + 1) + b] == c.args[i].data[b]
  {
    var n, k, x, ws := |c.params|, |SpillWrites(c, i)|, RspAfter(c, i + 1) + b, WritesFor(c, data);
    SpillWriteAt(c, i, n);
    SpillsDescend(c, n);
    assert ws[..|SpillWrites(c, n)|] == SpillWrites(c, n);
    assert ws[k] == SpillWrites(c, n)[k];
    SeparateUncovered(ws, k, x, |SpillWrites(c, n)|);
    LastWriteShows(m, ws, k, x);
  }

  lemma OutsideUncovered(ws: seq<Write>, lo: int, hi: int, x: nat)
    requires AllWithin(ws, lo, hi) && !(lo <= x < hi)
    ensures !CoveredFrom(ws, 0, x)
  {
  }

  lemma AppendCovered(a: seq<Write>, b: seq<Write>, x: nat)
    requires !CoveredFrom(a, 0, x) && !CoveredFrom(a + b, |a|, x)
    ensures !CoveredFrom(a + b, 0, x)
  {
  }

  /** No write of a call covers an address that is not between the stack pointers and that no stack argument reaches. */
  lemma ElsewhereUncovered(c: Call, data: seq<seq<Byte>>, x: nat)
    requires Valid(c) && |data| == |c.params| && RoomFor(c, data)
    requires !(RspAfter(c, |c.params|) <= x < c.rsp) && !StackReaches(c, data, x)
    ensures !CoveredFrom(WritesFor(c, data), 0, x)
  {
    var l := StackArgs(c, data, |c.params|);
    SpillsDescend(c, |c.params|);
    OutsideUncovered(SpillWrites(c, |c.params|), RspAfter(c, |c.params|), c.rsp, x);
    AppendCovered(SpillWrites(c, |c.params|), StackWrites(RspFor(c, data), l, |l|), x);
  }

  // ---- the caller's frame ----

  /** The writes change nothing at or above rsp. */
  ghost predicate FrameKept(m: Space, ws: seq<Write>, rsp: nat) {
    forall x | x in m && rsp <= x :: Written(m, ws)[x] == m[x]
  }

  /** Stack argument j ends at or below top. */
  predicate EndsBelow(l: seq<StackArg>, rsp: nat, j: nat, top: nat)
    requires j < |l|
  {
    l[j].data == [] || rsp + Total(l, j) + |l[j].data| <= top
  }

  ghost predicate AllEndBelow(l: seq<StackArg>, rsp: nat, top: nat) {
    forall j | 0 <= j < |l| :: EndsBelow(l, rsp, j, top)
  }

  lemma ReachedAboveIff(ws: seq<Write>, s: nat, rsp: nat, l: seq<StackArg>, y: nat)
    requires StackFrom(ws, s, rsp, l)
    ensures CoveredFrom(ws, s, rsp + y) <==> exists j | 0 <= j < |l| :: Reaches(l, j, y)
  {
    if CoveredFrom(ws, s, rsp + y) {
      var i :| s <= i < |ws| && Covers(ws[i], rsp + y);
      assert ws[s + (i - s)] == ws[i];
      ReachesIff(ws, s, rsp, l, i - s, y);
      assert Reaches(l, i - s, y);
    }
    if j :| 0 <= j < |l| && Reaches(l, j, y) {
      ReachesIff(ws, s, rsp, l, j, y);
    }
  }

  /** Whatever memory holds, a covered byte can be made to change. */
  lemma CoveredChanges(m: Space, ws: seq<Write>, x: nat) returns (m': Space)
    requires x in m && CoveredFrom(ws, 0, x)
    ensures m'.Keys == m.Keys && Written(m', ws)[x] != m'[x]
  {
    var k := LastCovering(ws, x);
    var old_ := ws[k].data[x - ws[k].at];
    m' := m[x := if old_ == 0 then 1 else 0];
    assert m'.Keys == m.Keys;
    LastWriteShows(m', ws, k, x);
  }

  lemma FrameKeptWhenBelow(c: Call, data: seq<seq<Byte>>, m: Space)
    requires Valid(c) && |data| == |c.params| && RoomFor(c, data)
    requires AllEndBelow(StackArgs(c, data, |c.params|), RspFor(c, data), c.rsp)
    ensures FrameKept(m, WritesFor(c, data), c.rsp)
  {
    var ws, l, rsp := WritesFor(c, data), StackArgs(c, data, |c.params|), RspFor(c, data);
    CallStackFrom(c, data);
    CalleeBelow(c, data);
    forall x | x in m && c.rsp <= x ensures Written(m, ws)[x] == m[x] {
      var y := x - rsp;
      forall j | 0 <= j < |l| ensures !Reaches(l, j, y) {
        assert EndsBelow(l, rsp, j, c.rsp);
      }
      ReachedAboveIff(ws, |SpillWrites(c, |c.params|)|, rsp, l, y);
      ElsewhereUncovered(c, data, x);
      UncoveredKept(m, ws, x);
    }
  }

  lemma FrameHitWhenAbove(c: Call, data: seq<seq<Byte>>, m: Space, j: nat) returns (m': Space)
    requires Valid(c) && |data| == |c.params| && RoomFor(c, data) && DataMapped(m, WritesFor(c, data))
    requires j < |StackArgs(c, data, |c.params|)|
    requires !EndsBelow(StackArgs(c, data, |c.params|), RspFor(c, data), j, c.rsp)
    ensures m'.Keys == m.Keys && !FrameKept(m', WritesFor(c, data), c.rsp)
  {
    var ws, s, l := WritesFor(c, data), |SpillWrites(c, |c.params|)|, StackArgs(c, data, |c.params|);
    CallStackFrom(c, data);
    StackWriteOf(ws, s, RspFor(c, data), l, j);
    var x := ws[s + j].at + |ws[s + j].data| - 1;
    assert Mapped(m, ws[s + j].at, |ws[s + j].data|);
    assert Covers(ws[s + j], x);
    m' := CoveredChanges(m, ws, x);
  }

  /**
    A call leaves the caller's frame, all there is at or above its stack pointer,
    as it is, whatever that is, if and only if each stack argument ends at or
    below that stack pointer.
   */
  lemma FrameUntouchedIff(c: Call, data: seq<seq<Byte>>, m: Space)
    requires Valid(c) && |data| == |c.params| && RoomFor(c, data) && DataMapped(m, WritesFor(c, data))
    ensures (forall m': Space | m'.Keys == m.Keys :: FrameKept(m', WritesFor(c, data), c.rsp))
            <==> AllEndBelow(StackArgs(c, data, |c.params|), RspFor(c, data), c.rsp)
  {
    var l, rsp := StackArgs(c, data, |c.params|), RspFor(c, data);
    if AllEndBelow(l, rsp, c.rsp) {
      forall m': Space | m'.Keys == m.Keys ensures FrameKept(m', WritesFor(c, data), c.rsp) {
        FrameKeptWhenBelow(c, data, m');
      }
    } else {
      var j :| 0 <= j < |l| && !EndsBelow(l, rsp, j, c.rsp);
      var m' := FrameHitWhenAbove(c, data, m, j);
    }
  }
}
