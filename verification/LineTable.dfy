/**
  The line-number program of section 6.2.5 of the DWARF 4 standard, run row by
  row as line_table::iterator does, and the lookup of an address among its rows.
 */
module LineTable {
  import opened Options
  import opened Memory
  import opened Leb128

  /** The header fields the program depends on; line_base is a signed byte. */
  datatype Header = Header(defaultIsStmt: bool, lineBase: int, lineRange: nat, opcodeBase: nat)

  /** line_table::entry, which serves as register file and as row. */
  datatype Entry = Entry(
    address: nat,
    fileIndex: nat,
    line: nat,
    column: nat,
    isStmt: bool,
    basicBlockStart: bool,
    endSequence: bool,
    prologueEnd: bool,
    epilogueBegin: bool,
    discriminator: nat)

  function Initial(h: Header): Entry {
    Entry(0, 1, 1, 0, h.defaultIsStmt, false, false, false, false, 0)
  }

  /** What is cleared once a row has been emitted. */
  function AfterRow(e: Entry): Entry {
    e.(basicBlockStart := false, prologueEnd := false, epilogueBegin := false, discriminator := 0)
  }

  /** The registers after one instruction, where the next one starts, and the row it emitted. */
  datatype Stepped = Stepped(registers: Entry, next: nat, row: Option<Entry>)

  function Quiet(e: Entry, next: nat): Option<Stepped> {
    Some(Stepped(e, next, None))
  }

  function Special(h: Header, e: Entry, opcode: nat): Entry
    requires h.lineRange > 0 && opcode >= h.opcodeBase
  {
    var adjusted := opcode - h.opcodeBase;
    e.(address := Low64(e.address + adjusted / h.lineRange),
       line := Low64(e.line + h.lineBase + adjusted % h.lineRange))
  }

  /** execute_instruction; None where it throws, divides by zero or reads past the end. */
  function Step(data: seq<Byte>, pos: nat, h: Header, e: Entry): (s: Option<Stepped>)
    ensures s.Some? ==> pos < s.value.next <= |data|
  {
    if pos >= |data| then None else
    var opcode, at := data[pos], pos + 1;
    if 0 < opcode < h.opcodeBase then StandardStep(data, at, h, e, opcode)
    else if opcode == 0 then
      var len := ReadUnsigned(data, at);
      if len.None? then None else ExtendedStep(data, len.value.1, h, e)
    else if h.lineRange == 0 then None
    else
      var row := Special(h, e, opcode);
      Some(Stepped(AfterRow(row), at, Some(row)))
  }

  function StandardStep(data: seq<Byte>, at: nat, h: Header, e: Entry, opcode: nat): (s: Option<Stepped>)
    requires at <= |data|
    ensures s.Some? ==> at <= s.value.next <= |data|
  {
    match opcode
    case 1 => Some(Stepped(AfterRow(e), at, Some(e)))
    case 2 =>
      var n := ReadUnsigned(data, at);
      if n.None? then None else Quiet(e.(address := Low64(e.address + n.value.0)), n.value.1)
    case 3 =>
      var n := ReadSigned(data, at);
      if n.None? then None else Quiet(e.(line := Low64(e.line + n.value.0)), n.value.1)
    case 4 =>
      var n := ReadUnsigned(data, at);
      if n.None? then None else Quiet(e.(fileIndex := n.value.0), n.value.1)
    case 5 =>
      var n := ReadUnsigned(data, at);
      if n.None? then None else Quiet(e.(column := n.value.0), n.value.1)
    case 6 => Quiet(e.(isStmt := !e.isStmt), at)
    case 7 => Quiet(e.(basicBlockStart := true), at)
    case 8 =>
      if h.lineRange == 0 || h.opcodeBase > 255 then None
      else Quiet(e.(address := Low64(e.address + (255 - h.opcodeBase) / h.lineRange)), at)
    case 9 =>
      var n := ReadFixed(data, at, 2);
      if n.None? then None else Quiet(e.(address := Low64(e.address + n.value.0)), n.value.1)
    case 10 => Quiet(e.(prologueEnd := true), at)
    case 11 => Quiet(e.(epilogueBegin := true), at)
    // DW_LNS_set_isa: the operand is not read
    case 12 => Quiet(e, at)
    case _ => None
  }

  function ExtendedStep(data: seq<Byte>, at: nat, h: Header, e: Entry): (s: Option<Stepped>)
    requires at <= |data|
    ensures s.Some? ==> at < s.value.next <= |data|
  {
    if at >= |data| then None else
    match data[at]
    case 1 => Some(Stepped(Initial(h), at + 1, Some(e.(endSequence := true))))
    case 2 =>
      var n := ReadFixed(data, at + 1, 8);
      if n.None? then None else Quiet(e.(address := n.value.0), n.value.1)
    case 4 =>
      var n := ReadUnsigned(data, at + 1);
      if n.None? then None else Quiet(e.(discriminator := n.value.0), n.value.1)
    // DW_LNE_define_file is not part of this model; anything else throws
    case _ => None
  }

  /** An eager run of the whole program, collecting its rows. */
  function Rows(data: seq<Byte>, pos: nat, h: Header, e: Entry): Option<seq<Entry>>
    decreases |data| - pos
  {
    if pos >= |data| then Some([]) else
    var s := Step(data, pos, h, e);
    if s.None? then None else
    var rest := Rows(data, s.value.next, h, s.value.registers);
    if rest.None? then None
    else if s.value.row.Some? then Some([s.value.row.value] + rest.value) else rest
  }

  /** The last instruction emits a row, or nothing follows a row (or the start) at all. */
  predicate EndsOnRow(data: seq<Byte>, pos: nat, h: Header, e: Entry, afterRow: bool)
    decreases |data| - pos
  {
    if pos >= |data| then afterRow else
    var s := Step(data, pos, h, e);
    s.Some? && EndsOnRow(data, s.value.next, h, s.value.registers, s.value.row.Some?)
  }

  /** What iterating yields: the eager rows, where no instruction is left over after the last. */
  function LazyRows(data: seq<Byte>, pos: nat, h: Header, e: Entry, afterRow: bool): Option<seq<Entry>> {
    if EndsOnRow(data, pos, h, e, afterRow) then Rows(data, pos, h, e) else None
  }

  lemma {:induction false} EndsOnRowRuns(data: seq<Byte>, pos: nat, h: Header, e: Entry, afterRow: bool)
    requires EndsOnRow(data, pos, h, e, afterRow)
    ensures Rows(data, pos, h, e).Some?
    decreases |data| - pos
  {
    if pos < |data| {
      var s := Step(data, pos, h, e).value;
      EndsOnRowRuns(data, s.next, h, s.registers, s.row.Some?);
    }
  }

  /** line_table::iterator; it equals end() once `finished`. */
  class Iterator {
    const data: seq<Byte>
    const header: Header
    var pos: nat
    var registers: Entry
    var current: Entry
    var finished: bool

    constructor (data: seq<Byte>, header: Header)
      ensures this.data == data && this.header == header
      ensures pos == 0 && registers == Initial(header) && !finished
    {
      this.data, this.header := data, header;
      pos, registers, current, finished := 0, Initial(header), Initial(header), false;
    }

    /**
      operator++: run until an instruction emits a row.  False where an
      instruction cannot run, in particular when none is left.
     */
    method Increment() returns (ok: bool)
      requires pos <= |data| && !finished
      modifies this`pos, this`registers, this`current, this`finished
      ensures pos <= |data|
      ensures ok && finished ==> old(pos) == |data|
      ensures ok && !finished ==> pos > old(pos)
      ensures ok ==>
                LazyRows(data, old(pos), header, old(registers), true) ==
                  if finished then Some([]) else
                  var rest := LazyRows(data, pos, header, registers, true);
                  if rest.None? then None else Some([current] + rest.value)
      ensures !ok ==> LazyRows(data, old(pos), header, old(registers), true).None?
    {
      if pos == |data| {
        finished := true;
        return true;
      }
      ghost var afterRow := true;
      while true
        invariant old(pos) <= pos <= |data| && !finished && (afterRow ==> pos == old(pos) < |data|)
        invariant LazyRows(data, old(pos), header, old(registers), true)
                  == LazyRows(data, pos, header, registers, afterRow)
        decreases |data| - pos
      {
        var s := Step(data, pos, header, registers);
        if s.None? {
          return false;
        }
        ghost var before := LazyRows(data, pos, header, registers, afterRow);
        pos, registers := s.value.next, s.value.registers;
        afterRow := s.value.row.Some?;
        if s.value.row.Some? {
          current := s.value.row.value;
          return true;
        }
      }
    }
  }

  /**
    for (auto it = begin(); it != end(); ++it): the rows seen are those of the
    eager run, if and only if the program's last instruction emits a row;
    otherwise the iterator runs past the end of the program.
   */
  method Iterate(data: seq<Byte>, h: Header) returns (r: Option<seq<Entry>>)
    ensures r == LazyRows(data, 0, h, Initial(h), true)
    ensures r.Some? <==> EndsOnRow(data, 0, h, Initial(h), true)
    ensures r.Some? ==> r == Rows(data, 0, h, Initial(h))
  {
    ghost var all := LazyRows(data, 0, h, Initial(h), true);
    if EndsOnRow(data, 0, h, Initial(h), true) {
      EndsOnRowRuns(data, 0, h, Initial(h), true);
    }
    var it := new Iterator(data, h);
    var rows: seq<Entry> := [];
    var ok := it.Increment();
    assert rows + [it.current] == [it.current];
    while ok && !it.finished
      invariant it.data == data && it.header == h && it.pos <= |data| && fresh(it)
      invariant ok && it.finished ==> all == Some(rows)
      invariant ok && !it.finished ==>
                  var rest := LazyRows(data, it.pos, h, it.registers, true);
                  all == if rest.None? then None else Some(rows + [it.current] + rest.value)
      invariant !ok ==> all.None?
      decreases ok && !it.finished, |data| - it.pos
    {
      ghost var rest := LazyRows(data, it.pos, h, it.registers, true);
      rows := rows + [it.current];
      ok := it.Increment();
      if ok && it.finished {
        assert rows + [] == rows;
      } else if ok && rest.Some? {
        assert rows + rest.value == rows + [it.current] + rest.value[1..];
      }
    }
    return if ok then Some(rows) else None;
  }

  /**
    Section 6.2.5.1: the opcode computed from an address advance and a line
    advance in range decodes to exactly these advances and emits the row.
   */
  lemma SpecialOpcodeDecodes(data: seq<Byte>, pos: nat, h: Header, e: Entry, addressAdvance: nat, lineAdvance: int)
    requires pos < |data| && h.lineRange > 0 && h.opcodeBase > 0
    requires h.lineBase <= lineAdvance < h.lineBase + h.lineRange
    requires data[pos] == lineAdvance - h.lineBase + h.lineRange * addressAdvance + h.opcodeBase
    ensures var row := e.(address := Low64(e.address + addressAdvance), line := Low64(e.line + lineAdvance));
            Step(data, pos, h, e) == Some(Stepped(AfterRow(row), pos + 1, Some(row)))
  {
    var d := lineAdvance - h.lineBase;
    assert h.lineRange * addressAdvance >= 0;
    DivMod(addressAdvance, d, h.lineRange);
  }

  lemma DivMod(q: nat, r: nat, d: nat)
    requires r < d
    ensures (r + d * q) / d == q && (r + d * q) % d == r
  {
    var x := r + d * q;
    var k, m := x / d, x % d;
    assert x == d * k + m;
    Distribute(d, q, k);
    if k < q {
      AtLeastOnce(d, q - k);
    } else if q < k {
      Distribute(d, k, q);
      AtLeastOnce(d, k - q);
    }
  }

  lemma Distribute(d: int, a: int, b: int)
    ensures d * (a - b) == d * a - d * b
  {
  }

  lemma {:induction false} AtLeastOnce(d: nat, n: int)
    requires n >= 1
    ensures d * n >= d
  {
    if n > 1 {
      AtLeastOnce(d, n - 1);
      Distribute(d, n, 1);
    }
  }

  /** Only an end_sequence row carries the flag, and the registers restart after it. */
  predicate Restarts(s: Stepped, h: Header) {
    && !s.registers.endSequence
    && (s.row.Some? ==> s.registers == if s.row.value.endSequence then Initial(h) else AfterRow(s.row.value))
  }

  lemma StandardRestarts(data: seq<Byte>, at: nat, h: Header, e: Entry, opcode: nat)
    requires at <= |data| && !e.endSequence && StandardStep(data, at, h, e, opcode).Some?
    ensures Restarts(StandardStep(data, at, h, e, opcode).value, h)
  {
  }

  lemma ExtendedRestarts(data: seq<Byte>, at: nat, h: Header, e: Entry)
    requires at <= |data| && !e.endSequence && ExtendedStep(data, at, h, e).Some?
    ensures Restarts(ExtendedStep(data, at, h, e).value, h)
  {
  }

  /** In every run each row after an end_sequence starts from the initial registers. */
  lemma RestartAfterEndSequence(data: seq<Byte>, pos: nat, h: Header, e: Entry)
    requires !e.endSequence && Step(data, pos, h, e).Some?
    ensures Restarts(Step(data, pos, h, e).value, h)
  {
    var opcode := data[pos];
    if 0 < opcode < h.opcodeBase {
      StandardRestarts(data, pos + 1, h, e, opcode);
    } else if opcode == 0 {
      ExtendedRestarts(data, ReadUnsigned(data, pos + 1).value.1, h, e);
    }
  }

  function Prefixed(row: Option<Entry>, rows: seq<Entry>): seq<Entry> {
    if row.Some? then [row.value] + rows else rows
  }

  /** The rows up to and including the first end_sequence, and the position after it. */
  function FirstSequence(data: seq<Byte>, pos: nat, h: Header, e: Entry): Option<(seq<Entry>, nat)>
    decreases |data| - pos
  {
    if pos >= |data| then None else
    var s := Step(data, pos, h, e);
    if s.None? then None
    else if s.value.row.Some? && s.value.row.value.endSequence then Some(([s.value.row.value], s.value.next))
    else
      var rest := FirstSequence(data, s.value.next, h, s.value.registers);
      if rest.None? then None else Some((Prefixed(s.value.row, rest.value.0), rest.value.1))
  }

  /** What follows an end_sequence runs as a program of its own, from the initial registers. */
  lemma {:induction false} SequencesAreIndependent(data: seq<Byte>, pos: nat, h: Header, e: Entry)
    requires !e.endSequence && FirstSequence(data, pos, h, e).Some?
    ensures var (first, next) := FirstSequence(data, pos, h, e).value;
            var rest := Rows(data, next, h, Initial(h));
            Rows(data, pos, h, e) == if rest.None? then None else Some(first + rest.value)
    decreases |data| - pos
  {
    RestartAfterEndSequence(data, pos, h, e);
    var s := Step(data, pos, h, e).value;
    if !(s.row.Some? && s.row.value.endSequence) {
      SequencesAreIndependent(data, s.next, h, s.registers);
      var (first, next) := FirstSequence(data, s.next, h, s.registers).value;
      var rest := Rows(data, next, h, Initial(h));
      if rest.Some? {
        assert Prefixed(s.row, first) + rest.value == Prefixed(s.row, first + rest.value);
      }
    }
  }

  /** Between rows i and j no sequence ends. */
  predicate SameSequence(rows: seq<Entry>, i: int, j: int) {
    0 <= i <= j < |rows| && forall k | i <= k < j :: !rows[k].endSequence
  }

  /** Addresses do not decrease within a sequence. */
  ghost predicate Ascending(rows: seq<Entry>) {
    forall i, j | SameSequence(rows, i, j) :: rows[i].address <= rows[j].address
  }

  /** Rows i and j of one sequence enclose the address. */
  predicate Encloses(rows: seq<Entry>, i: int, j: int, a: nat) {
    SameSequence(rows, i, j) && rows[i].address <= a < rows[j].address
  }

  predicate NextEncloses(rows: seq<Entry>, k: int, a: nat) {
    Encloses(rows, k, k + 1, a)
  }

  /** No address is enclosed by two different sequences. */
  ghost predicate Disjoint(rows: seq<Entry>) {
    forall a: nat, i, j, k, l | Encloses(rows, i, j, a) && Encloses(rows, k, l, a) && i <= k ::
      SameSequence(rows, i, k)
  }

  /** Row k is the one for the address: nothing later in its sequence is at or below it. */
  ghost predicate IsRowFor(rows: seq<Entry>, k: int, a: nat) {
    && 0 <= k < |rows| && !rows[k].endSequence && rows[k].address <= a
    && forall j | k < j && SameSequence(rows, k, j) :: a < rows[j].address
  }

  /** Where a sequence encloses an address, two neighbouring rows do. */
  lemma {:induction false} NeighboursEnclose(rows: seq<Entry>, i: int, j: int, a: nat) returns (k: int)
    requires Encloses(rows, i, j, a)
    ensures i <= k < j && NextEncloses(rows, k, a)
    decreases j - i
  {
    if rows[i + 1].address > a {
      k := i;
    } else {
      k := NeighboursEnclose(rows, i + 1, j, a);
    }
  }

  /**
    get_entry_by_address: the search succeeds exactly when a sequence covers the
    address.  With ascending addresses it yields the last row at or below it in
    that sequence, which is the only one when sequences do not overlap.
   */
  method EntryByAddress(rows: seq<Entry>, a: nat) returns (r: Option<nat>)
    ensures r.Some? <==> exists i, j :: Encloses(rows, i, j, a)
    ensures r.Some? && Ascending(rows) ==> IsRowFor(rows, r.value, a)
    ensures r.Some? && Disjoint(rows) ==> forall i, j | Encloses(rows, i, j, a) ::
              SameSequence(rows, i, r.value) || SameSequence(rows, r.value, i)
  {
    if rows == [] {
      return None;
    }
    var prev := 0;
    for it := 1 to |rows|
      invariant prev == it - 1
      invariant forall k | 0 <= k < it - 1 :: !NextEncloses(rows, k, a)
    {
      if rows[prev].address <= a && rows[it].address > a && !rows[prev].endSequence {
        assert Encloses(rows, prev, it, a);
        if Ascending(rows) {
          LastOfSequence(rows, prev, a);
        }
        return Some(prev);
      }
      prev := it;
    }
    forall i, j | Encloses(rows, i, j, a) ensures false {
      var k := NeighboursEnclose(rows, i, j, a);
    }
    return None;
  }

  lemma LastOfSequence(rows: seq<Entry>, k: int, a: nat)
    requires Ascending(rows) && NextEncloses(rows, k, a)
    ensures IsRowFor(rows, k, a)
  {
    forall j | k < j && SameSequence(rows, k, j) ensures a < rows[j].address {
      assert SameSequence(rows, k + 1, j);
    }
  }

  // ---- the standard's reading ----

  const DW_LNS_set_isa: nat := 12

  /** Extended opcodes that section 6.2.5.3 defines. */
  predicate KnownExtended(opcode: nat) {
    1 <= opcode <= 4
  }

  datatype Kind = NoOperand | Uleb | Sleb | Half

  /** The operands of section 6.2.5.2. */
  function OperandOf(opcode: nat): Kind {
    match opcode
    // advance_pc, set_file, set_column, set_isa
    case 2 | 4 | 5 | 12 => Uleb
    // advance_line
    case 3 => Sleb
    // fixed_advance_pc
    case 9 => Half
    case _ => NoOperand
  }

  function ReadOperand(kind: Kind, data: seq<Byte>, at: nat): (r: Option<(int, nat)>)
    requires at <= |data|
    ensures r.Some? ==> at <= r.value.1 <= |data|
  {
    match kind
    case NoOperand => Some((0, at))
    case Uleb =>
      var n := ReadUnsigned(data, at);
      if n.None? then None else Some((n.value.0, n.value.1))
    case Sleb =>
      var n := ReadSigned(data, at);
      if n.None? then None else Some((n.value.0, n.value.1))
    case Half => if at + 2 > |data| then None else Some((LittleEndian(data[at..at + 2]), at + 2))
  }

  /** By how much a special opcode advances the address and the line. */
  function AddressAdvance(h: Header, opcode: nat): int {
    if h.lineRange == 0 then 0 else (opcode - h.opcodeBase) / h.lineRange
  }

  function LineAdvance(h: Header, opcode: nat): int {
    if h.lineRange == 0 then 0 else h.lineBase + (opcode - h.opcodeBase) % h.lineRange
  }

  /** The registers, one by one, after an opcode with operand n; const_add_pc advances the address as special opcode 255. */
  function AddressAfter(h: Header, e: Entry, opcode: nat, n: int): nat {
    var advance := if opcode >= h.opcodeBase then AddressAdvance(h, opcode)
                   else if opcode == 2 || opcode == 9 then n
                   else if opcode == 8 then AddressAdvance(h, 255) else 0;
    (e.address + advance) % MODULUS
  }

  function LineAfter(h: Header, e: Entry, opcode: nat, n: int): nat {
    var advance := if opcode >= h.opcodeBase then LineAdvance(h, opcode) else if opcode == 3 then n else 0;
    (e.line + advance) % MODULUS
  }

  function After(h: Header, e: Entry, opcode: nat, n: int): Entry {
    var special := opcode >= h.opcodeBase;
    Entry(AddressAfter(h, e, opcode, n),
          if !special && opcode == 4 && n >= 0 then n else e.fileIndex,
          LineAfter(h, e, opcode, n),
          if !special && opcode == 5 && n >= 0 then n else e.column,
          if !special && opcode == 6 then !e.isStmt else e.isStmt,
          e.basicBlockStart || (!special && opcode == 7),
          e.endSequence,
          e.prologueEnd || (!special && opcode == 10),
          e.epilogueBegin || (!special && opcode == 11),
          e.discriminator)
  }

  /** What section 6.2.5.1 resets once a row has been appended. */
  function RowDone(e: Entry): Entry {
    Entry(e.address, e.fileIndex, e.line, e.column, e.isStmt, false, e.endSequence, false, false, 0)
  }

  /** The state at the beginning of each sequence, section 6.2.2. */
  function SequenceStart(h: Header): Entry {
    Entry(0, 1, 1, 0, h.defaultIsStmt, false, false, false, false, 0)
  }

  /** The registers hold 64-bit numbers. */
  predicate InRange(e: Entry) {
    e.address < MODULUS && e.line < MODULUS
  }

  /** An extended instruction of section 6.2.5.3, which ends where its length says. */
  function ExtendedAsStandard(data: seq<Byte>, at: nat, end: nat, h: Header, e: Entry): Option<Stepped>
    requires at < |data|
  {
    match data[at]
    case 1 =>
      var row := Entry(e.address, e.fileIndex, e.line, e.column, e.isStmt, e.basicBlockStart, true,
                       e.prologueEnd, e.epilogueBegin, e.discriminator);
      Some(Stepped(SequenceStart(h), end, Some(row)))
    case 2 =>
      if at + 9 > |data| then None
      else Quiet(Entry(LittleEndian(data[at + 1..at + 9]), e.fileIndex, e.line, e.column, e.isStmt, e.basicBlockStart,
                       e.endSequence, e.prologueEnd, e.epilogueBegin, e.discriminator), end)
    // DW_LNE_define_file is not part of this model
    case 3 => None
    case 4 =>
      var n := ReadUnsigned(data, at + 1);
      if n.None? then None
      else Quiet(Entry(e.address, e.fileIndex, e.line, e.column, e.isStmt, e.basicBlockStart,
                       e.endSequence, e.prologueEnd, e.epilogueBegin, n.value.0), end)
    case _ => Quiet(e, end)
  }

  /**
    One instruction as section 6.2.5 says, with a minimum instruction length of one
    and one operation per instruction, as parse_line_table asks.
   */
  function StepAsStandard(data: seq<Byte>, pos: nat, h: Header, e: Entry): (s: Option<Stepped>)
    ensures s.Some? ==> pos < s.value.next <= |data|
  {
    if pos >= |data| then None else
    var opcode, at := data[pos], pos + 1;
    if opcode == 0 then
      var len := ReadUnsigned(data, at);
      if len.None? then None else
      var end := len.value.1 + len.value.0;
      if end == len.value.1 || end > |data| then None else ExtendedAsStandard(data, len.value.1, end, h, e)
    else if (opcode >= h.opcodeBase || opcode == 8) && h.lineRange == 0 then None
    else if opcode >= h.opcodeBase then
      var row := After(h, e, opcode, 0);
      Some(Stepped(RowDone(row), at, Some(row)))
    else if opcode > 12 then None
    else StandardAsStandard(data, at, h, e, opcode)
  }

  /** A standard opcode of section 6.2.5.2 with its operand. */
  function StandardAsStandard(data: seq<Byte>, at: nat, h: Header, e: Entry, opcode: nat): (s: Option<Stepped>)
    requires at <= |data|
    ensures s.Some? ==> at <= s.value.next <= |data|
  {
    var n := ReadOperand(OperandOf(opcode), data, at);
    if n.None? then None
    else if opcode == 1 then Some(Stepped(RowDone(e), at, Some(e)))
    else Quiet(After(h, e, opcode, n.value.0), n.value.1)
  }

  predicate IsSetIsa(data: seq<Byte>, pos: nat, h: Header) {
    pos < |data| && data[pos] == DW_LNS_set_isa < h.opcodeBase
  }

  /** Where the operands of the known extended opcode at this position end. */
  function OperandsEnd(data: seq<Byte>, at: nat): Option<nat>
    requires at < |data|
  {
    match data[at]
    case 1 => Some(at + 1)
    case 2 => if at + 9 <= |data| then Some(at + 9) else None
    case 4 =>
      var n := ReadUnsigned(data, at + 1);
      if n.None? then None else Some(n.value.1)
    case _ => None
  }

  /** An unknown extended opcode that could be skipped, or a known one whose operands do not end where its length says. */
  predicate ExtendedDeviates(data: seq<Byte>, pos: nat) {
    var len := ReadUnsigned(data, pos + 1);
    len.Some? && len.value.1 < |data| &&
    var at, end := len.value.1, len.value.1 + len.value.0;
    if KnownExtended(data[at]) then OperandsEnd(data, at).Some? && OperandsEnd(data, at) != Some(end)
    else at < end <= |data|
  }

  /** The program leaves the standard. */
  predicate Deviates(data: seq<Byte>, pos: nat, h: Header) {
    IsSetIsa(data, pos, h) || (pos < |data| && data[pos] == 0 && ExtendedDeviates(data, pos))
  }

  lemma StepIsStandardIff(data: seq<Byte>, pos: nat, h: Header, e: Entry)
    requires h.opcodeBase <= 13 && InRange(e)
    ensures Step(data, pos, h, e) == StepAsStandard(data, pos, h, e) <==> !Deviates(data, pos, h)
    ensures Step(data, pos, h, e).Some? ==> InRange(Step(data, pos, h, e).value.registers)
  {
    if pos < |data| {
      var opcode := data[pos];
      if opcode == 0 {
        ExtendedStepIff(data, pos, h, e);
      } else if opcode < h.opcodeBase {
        StandardOpcode(data, pos, h, e, opcode);
      } else if h.lineRange > 0 {
        Low64IsModulo(e.address + AddressAdvance(h, opcode));
        Low64IsModulo(e.line + LineAdvance(h, opcode));
      }
    }
  }

  lemma ExtendedStepIff(data: seq<Byte>, pos: nat, h: Header, e: Entry)
    requires pos < |data| && data[pos] == 0 && InRange(e)
    ensures Step(data, pos, h, e) == StepAsStandard(data, pos, h, e) <==> !Deviates(data, pos, h)
    ensures Step(data, pos, h, e).Some? ==> InRange(Step(data, pos, h, e).value.registers)
  {
    var len := ReadUnsigned(data, pos + 1);
    if len.Some? && len.value.1 < |data| {
      ExtendedAgrees(data, len.value.1, len.value.1 + len.value.0, h, e);
    }
  }

  /** Up to where they end, extended instructions are those of the standard. */
  lemma ExtendedAgrees(data: seq<Byte>, at: nat, end: nat, h: Header, e: Entry)
    requires at < |data| && InRange(e)
    ensures var s, t := ExtendedStep(data, at, h, e), ExtendedAsStandard(data, at, end, h, e);
            if KnownExtended(data[at])
            then if s.None? then t.None? && OperandsEnd(data, at).None?
                 else t == Some(s.value.(next := end)) && OperandsEnd(data, at) == Some(s.value.next)
            else s.None? && t == Some(Stepped(e, end, None))
    ensures ExtendedStep(data, at, h, e).Some? ==> InRange(ExtendedStep(data, at, h, e).value.registers)
  {
    if data[at] == 2 && at + 9 <= |data| {
      FixedIsLittleEndian(data, at + 1, 8);
      EightBytes(data[at + 1..at + 9]);
    }
  }

  lemma EightBytes(bytes: seq<Byte>)
    requires |bytes| == 8
    ensures LittleEndian(bytes) < MODULUS
  {
    Pow2Of64();
    LittleEndianBound(bytes);
  }

  lemma StandardOpcode(data: seq<Byte>, pos: nat, h: Header, e: Entry, opcode: nat)
    requires h.opcodeBase <= 13 && InRange(e) && pos < |data| && data[pos] == opcode && 0 < opcode < h.opcodeBase
    ensures StandardStep(data, pos + 1, h, e, opcode) == StepAsStandard(data, pos, h, e) <==> opcode != DW_LNS_set_isa
    ensures StandardStep(data, pos + 1, h, e, opcode).Some? ==>
              InRange(StandardStep(data, pos + 1, h, e, opcode).value.registers)
  {
    if opcode != DW_LNS_set_isa {
      StandardAgrees(data, pos + 1, h, e, opcode);
      AfterInRange(data, pos + 1, h, e, opcode);
    } else {
      IsaOperand(data, pos + 1, h, e);
    }
  }

  lemma IsaOperand(data: seq<Byte>, at: nat, h: Header, e: Entry)
    requires at <= |data|
    ensures var s := StandardAsStandard(data, at, h, e, 12); s.Some? ==> s.value.next > at
  {
  }

  lemma AfterInRange(data: seq<Byte>, at: nat, h: Header, e: Entry, opcode: nat)
    requires at <= |data| && InRange(e)
    ensures var s := StandardAsStandard(data, at, h, e, opcode); s.Some? ==> InRange(s.value.registers)
  {
  }

  /** Standard opcodes other than DW_LNS_set_isa are those of the standard. */
  lemma StandardAgrees(data: seq<Byte>, at: nat, h: Header, e: Entry, opcode: nat)
    requires h.opcodeBase <= 13 && InRange(e) && at <= |data| && 0 < opcode < h.opcodeBase && opcode != DW_LNS_set_isa
    ensures StandardStep(data, at, h, e, opcode) ==
            if opcode == 8 && h.lineRange == 0 then None else StandardAsStandard(data, at, h, e, opcode)
  {
    NoAdvance(e.address);
    NoAdvance(e.line);
    match opcode {
      case 2 => AdvancePc(data, at, h, e);
      case 3 => AdvanceLine(data, at, h, e);
      case 8 => ConstAddPc(data, at, h, e);
      case 9 => FixedAdvancePc(data, at, h, e);
      case _ =>
    }
  }

  lemma AdvancePc(data: seq<Byte>, at: nat, h: Header, e: Entry)
    requires 2 < h.opcodeBase && InRange(e) && at <= |data|
    ensures StandardStep(data, at, h, e, 2) == StandardAsStandard(data, at, h, e, 2)
  {
    var n := ReadUnsigned(data, at);
    NoAdvance(e.line);
    if n.Some? {
      Low64IsModulo(e.address + n.value.0);
    }
  }

  lemma AdvanceLine(data: seq<Byte>, at: nat, h: Header, e: Entry)
    requires 3 < h.opcodeBase && InRange(e) && at <= |data|
    ensures StandardStep(data, at, h, e, 3) == StandardAsStandard(data, at, h, e, 3)
  {
    var n := ReadSigned(data, at);
    NoAdvance(e.address);
    if n.Some? {
      Low64IsModulo(e.line + n.value.0);
    }
  }

  lemma ConstAddPc(data: seq<Byte>, at: nat, h: Header, e: Entry)
    requires 8 < h.opcodeBase <= 13 && InRange(e) && at <= |data|
    ensures StandardStep(data, at, h, e, 8) == if h.lineRange == 0 then None else StandardAsStandard(data, at, h, e, 8)
  {
    NoAdvance(e.line);
    if h.lineRange > 0 {
      Low64IsModulo(e.address + AddressAdvance(h, 255));
    }
  }

  lemma FixedAdvancePc(data: seq<Byte>, at: nat, h: Header, e: Entry)
    requires 9 < h.opcodeBase && InRange(e) && at <= |data|
    ensures StandardStep(data, at, h, e, 9) == StandardAsStandard(data, at, h, e, 9)
  {
    NoAdvance(e.line);
    if at + 2 <= |data| {
      FixedIsLittleEndian(data, at, 2);
      Low64IsModulo(e.address + LittleEndian(data[at..at + 2]));
    }
  }

  lemma NoAdvance(x: nat)
    requires x < MODULUS
    ensures (x + 0) % MODULUS == x
  {
  }

  /** What each instruction does, up to the first that cannot run. */
  function Trace(data: seq<Byte>, pos: nat, h: Header, e: Entry): seq<Stepped>
    decreases |data| - pos
  {
    var s := Step(data, pos, h, e);
    if s.None? then [] else [s.value] + Trace(data, s.value.next, h, s.value.registers)
  }

  function TraceAsStandard(data: seq<Byte>, pos: nat, h: Header, e: Entry): seq<Stepped>
    decreases |data| - pos
  {
    var s := StepAsStandard(data, pos, h, e);
    if s.None? then [] else [s.value] + TraceAsStandard(data, s.value.next, h, s.value.registers)
  }

  /** No instruction that the standard's run reaches deviates. */
  predicate NeverDeviates(data: seq<Byte>, pos: nat, h: Header, e: Entry)
    decreases |data| - pos
  {
    && !Deviates(data, pos, h)
    && var s := StepAsStandard(data, pos, h, e);
       s.None? || NeverDeviates(data, s.value.next, h, s.value.registers)
  }

  /**
    The program does what the standard says at every instruction, if and only if no
    DW_LNS_set_isa, no unknown extended opcode that could be skipped and no known
    one with another length than its operands have is reached.  A header with other
    standard opcodes than the twelve is refused before.
   */
  lemma {:induction false} CodeIsStandardIff(data: seq<Byte>, pos: nat, h: Header, e: Entry)
    requires h.opcodeBase <= 13 && InRange(e)
    ensures Trace(data, pos, h, e) == TraceAsStandard(data, pos, h, e) <==> NeverDeviates(data, pos, h, e)
    decreases |data| - pos
  {
    StepIsStandardIff(data, pos, h, e);
    var s, t := Step(data, pos, h, e), StepAsStandard(data, pos, h, e);
    if s.Some? && t.Some? {
      var rest := Trace(data, s.value.next, h, s.value.registers);
      var rest' := TraceAsStandard(data, t.value.next, h, t.value.registers);
      assert ([s.value] + rest)[0] == s.value && ([t.value] + rest')[0] == t.value;
      assert ([s.value] + rest)[1..] == rest && ([t.value] + rest')[1..] == rest';
      if s == t {
        CodeIsStandardIff(data, s.value.next, h, s.value.registers);
      }
    }
  }

  /** DW_LNS_set_isa 1: the program takes the operand for DW_LNS_copy and emits a row. */
  lemma IsaOperandBecomesRow(h: Header)
    requires h.opcodeBase == 13
    ensures var data: seq<Byte>, e := [12, 1], Initial(h);
            && Trace(data, 0, h, e) == [Stepped(e, 1, None), Stepped(AfterRow(e), 2, Some(e))]
            && TraceAsStandard(data, 0, h, e) == [Stepped(e, 2, None)]
  {
    var data: seq<Byte>, e := [12, 1], Initial(h);
    OneByteNumber(data, 1);
    assert Step(data, 0, h, e) == Some(Stepped(e, 1, None));
    assert Step(data, 1, h, e) == Some(Stepped(AfterRow(e), 2, Some(e)));
    assert Step(data, 2, h, AfterRow(e)) == None;
    assert Trace(data, 2, h, AfterRow(e)) == [];
    assert Trace(data, 1, h, e) == [Stepped(AfterRow(e), 2, Some(e))];
    assert StepAsStandard(data, 0, h, e) == Some(Stepped(e, 2, None));
    assert TraceAsStandard(data, 2, h, e) == [];
  }

  /** An extended opcode outside the standard, of length one: the program throws, the standard skips it. */
  lemma UnknownExtendedThrows(h: Header, e: Entry)
    ensures var data: seq<Byte> := [0, 1, 0x80];
            Step(data, 0, h, e) == None && StepAsStandard(data, 0, h, e) == Some(Stepped(e, 3, None))
  {
    OneByteNumber([0, 1, 0x80], 1);
  }

  /** DW_LNE_end_sequence of length two: the program goes on inside the instruction. */
  lemma LengthIsIgnored(h: Header, e: Entry)
    ensures var data: seq<Byte> := [0, 2, 1, 0];
            && Step(data, 0, h, e) == Some(Stepped(Initial(h), 3, Some(e.(endSequence := true))))
            && StepAsStandard(data, 0, h, e) == Some(Stepped(Initial(h), 4, Some(e.(endSequence := true))))
  {
    OneByteNumber([0, 2, 1, 0], 1);
  }

  /** DW_LNS_copy, then DW_LNS_negate_stmt: one row, but the iterator runs past the end. */
  lemma TrailingInstructionIsFatal(h: Header)
    requires h.opcodeBase > 6
    ensures var data: seq<Byte>, e := [1, 6], Initial(h);
            Rows(data, 0, h, e) == Some([e]) && !EndsOnRow(data, 0, h, e, true) && LazyRows(data, 0, h, e, true).None?
  {
    var data: seq<Byte>, e := [1, 6], Initial(h);
    var after := AfterRow(e).(isStmt := !e.isStmt);
    assert Step(data, 0, h, e) == Some(Stepped(AfterRow(e), 1, Some(e)));
    assert Step(data, 1, h, AfterRow(e)) == Some(Stepped(after, 2, None));
    assert Rows(data, 2, h, after) == Some([]);
    assert Rows(data, 1, h, AfterRow(e)) == Some([]) && [e] + [] == [e];
    assert !EndsOnRow(data, 2, h, after, false);
    assert !EndsOnRow(data, 1, h, AfterRow(e), true);
  }
}
