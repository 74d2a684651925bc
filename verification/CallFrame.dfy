/**
  The call-frame interpreter of call_frame_information::unwind: instructions of
  section 6.4.2 of the DWARF 4 standard decoded from bytes and executed on an
  unwind context, until the location passes the program counter.
 */
module CallFrame {
  import opened Options
  import opened Memory
  import opened Leb128

  datatype Rule =
    | Undefined
    | SameValue
    | OffsetRule(offset: int)
    | ValOffsetRule(offset: int)
    | RegisterRule(reg: nat)
    | ExprRule(expr: seq<Byte>)
    | ValExprRule(expr: seq<Byte>)

  /** NoCfa is the standard's CFA before any rule for it. */
  datatype CfaRule = CfaRegister(reg: nat, offset: int) | CfaExpr(expr: seq<Byte>) | NoCfa

  type Rules = map<nat, Rule>

  /** The fields of unwind_context other than the cursor. */
  datatype Context = Context(
    location: nat,
    cfa: CfaRule,
    cieRules: Rules,
    rules: Rules,
    stack: seq<(Rules, CfaRule)>)

  datatype Instruction =
    | Nop
    | Advance(delta: nat)
    | SetLocation(location: nat)
    | SetRule(reg: nat, rule: Rule)
    | Restore(reg: nat)
    | DefCfa(cfaRule: CfaRule)
    | DefCfaRegister(reg: nat)
    | DefCfaOffset(offset: int)
    | RememberState
    | RestoreState

  /** What decoding needs from the CIE; pointers are read by its encoding. */
  datatype Cie = Cie(codeAlign: nat, dataAlign: int, readPointer: (seq<Byte>, nat) -> Option<(nat, nat)>)

  function Wrap64(x: int): nat {
    x % MODULUS
  }

  function Wrap32(x: int): nat {
    x % 0x1_0000_0000
  }

  function Signed64(x: int): int {
    ToSigned(x % MODULUS)
  }

  datatype Fetched = Fetched(instruction: Instruction, next: nat)

  /** Two ULEB128 operands. */
  function ReadPair(data: seq<Byte>, pos: nat): (r: Option<(nat, nat, nat)>)
    ensures r.Some? ==> pos < r.value.2 <= |data|
  {
    var a := ReadUnsigned(data, pos);
    if a.None? then None else
    var b := ReadUnsigned(data, a.value.1);
    if b.None? then None else Some((a.value.0, b.value.0, b.value.1))
  }

  /** A ULEB128 operand followed by an SLEB128 one. */
  function ReadMixed(data: seq<Byte>, pos: nat): (r: Option<(nat, int, nat)>)
    ensures r.Some? ==> pos < r.value.2 <= |data|
  {
    var a := ReadUnsigned(data, pos);
    if a.None? then None else
    var b := ReadSigned(data, a.value.1);
    if b.None? then None else Some((a.value.0, b.value.0, b.value.1))
  }

  /** A block: its ULEB128 length, then that many bytes. */
  function ReadBlock(data: seq<Byte>, pos: nat): (r: Option<(seq<Byte>, nat)>)
    ensures r.Some? ==> pos < r.value.1 <= |data|
  {
    var n := ReadUnsigned(data, pos);
    if n.None? || n.value.1 + n.value.0 > |data| then None
    else Some((data[n.value.1..n.value.1 + n.value.0], n.value.1 + n.value.0))
  }

  function Emit(o: Option<(nat, nat)>, f: nat -> Instruction): Option<Fetched> {
    if o.None? then None else Some(Fetched(f(o.value.0), o.value.1))
  }

  /** Instructions as the program reads and executes them, or as section 6.4.2 of the standard says. */
  datatype Reading = Code | Standard

  // ---- the program ----

  /** The instruction at pos and where the next one starts; None on reads past the end. */
  function FetchCode(data: seq<Byte>, pos: nat, cie: Cie): (r: Option<Fetched>)
    ensures r.Some? ==> pos < r.value.next
  {
    if pos >= |data| then None else
    var opcode, operands := data[pos], pos + 1;
    var low := opcode % 64;
    if opcode >= 0xc0 then Some(Fetched(Restore(low), operands))
    else if opcode >= 0x80 then
      var n := ReadUnsigned(data, operands);
      if n.None? then None
      else Some(Fetched(SetRule(low, OffsetRule(Signed64(ToSigned(n.value.0) * cie.dataAlign))), n.value.1))
    else if opcode >= 0x40 then Some(Fetched(Advance(Wrap64(low * cie.codeAlign)), operands))
    else FetchExtended(low, data, operands, cie)
  }

  /** Register numbers, and the offset of DW_CFA_def_cfa, are cut to 32 bits. */
  function FetchExtended(opcode: nat, data: seq<Byte>, pos: nat, cie: Cie): (r: Option<Fetched>)
    ensures r.Some? ==> pos <= r.value.next
  {
    match opcode
    case 0x00 => Some(Fetched(Nop, pos))
    case 0x01 =>
      var p := cie.readPointer(data, pos);
      if p.None? || p.value.1 < pos then None else Some(Fetched(SetLocation(Wrap64(p.value.0)), p.value.1))
    case 0x02 => Emit(ReadFixed(data, pos, 1), n => Advance(Wrap64(n * cie.codeAlign)))
    case 0x03 => Emit(ReadFixed(data, pos, 2), n => Advance(Wrap64(n * cie.codeAlign)))
    case 0x04 => Emit(ReadFixed(data, pos, 4), n => Advance(Wrap64(n * cie.codeAlign)))
    case 0x05 => FetchOffset(data, pos, cie, false)
    case 0x06 => Emit(ReadUnsigned(data, pos), (reg: nat) => Restore(Wrap32(reg)))
    case 0x07 => Emit(ReadUnsigned(data, pos), (reg: nat) => SetRule(Wrap32(reg), Undefined))
    case 0x08 => Emit(ReadUnsigned(data, pos), (reg: nat) => SetRule(Wrap32(reg), SameValue))
    case 0x09 =>
      var p := ReadPair(data, pos);
      if p.None? then None
      else Some(Fetched(SetRule(Wrap32(p.value.0), RegisterRule(Wrap32(p.value.1))), p.value.2))
    case 0x0a => Some(Fetched(RememberState, pos))
    case 0x0b => Some(Fetched(RestoreState, pos))
    case 0x0c =>
      var p := ReadPair(data, pos);
      if p.None? then None
      else Some(Fetched(DefCfa(CfaRegister(Wrap32(p.value.0), Wrap32(p.value.1))), p.value.2))
    case 0x0d => Emit(ReadUnsigned(data, pos), (reg: nat) => DefCfaRegister(Wrap32(reg)))
    case 0x0e => Emit(ReadUnsigned(data, pos), (n: nat) => DefCfaOffset(ToSigned(n)))
    case 0x0f =>
      var b := ReadBlock(data, pos);
      if b.None? then None else Some(Fetched(DefCfa(CfaExpr(b.value.0)), b.value.1))
    case 0x10 => FetchExpression(data, pos, true)
    case 0x11 => FetchOffsetSigned(data, pos, cie, false)
    case 0x12 =>
      var p := ReadMixed(data, pos);
      if p.None? then None
      else Some(Fetched(DefCfa(CfaRegister(Wrap32(p.value.0), Signed64(p.value.1 * cie.dataAlign))), p.value.2))
    case 0x13 =>
      var n := ReadSigned(data, pos);
      if n.None? then None else Some(Fetched(DefCfaOffset(Signed64(n.value.0 * cie.dataAlign)), n.value.1))
    case 0x14 => FetchOffset(data, pos, cie, true)
    case 0x15 => FetchOffsetSigned(data, pos, cie, true)
    case 0x16 => FetchExpression(data, pos, false)
    // every other opcode is skipped without its operands
    case _ => Some(Fetched(Nop, pos))
  }

  function FetchOffset(data: seq<Byte>, pos: nat, cie: Cie, val: bool): (r: Option<Fetched>)
    ensures r.Some? ==> pos <= r.value.next
  {
    var p := ReadPair(data, pos);
    if p.None? then None else
    var offset := Signed64(ToSigned(p.value.1) * cie.dataAlign);
    Some(Fetched(SetRule(Wrap32(p.value.0), if val then ValOffsetRule(offset) else OffsetRule(offset)), p.value.2))
  }

  function FetchOffsetSigned(data: seq<Byte>, pos: nat, cie: Cie, val: bool): (r: Option<Fetched>)
    ensures r.Some? ==> pos <= r.value.next
  {
    var p := ReadMixed(data, pos);
    if p.None? then None else
    var offset := Signed64(p.value.1 * cie.dataAlign);
    Some(Fetched(SetRule(Wrap32(p.value.0), if val then ValOffsetRule(offset) else OffsetRule(offset)), p.value.2))
  }

  function FetchExpression(data: seq<Byte>, pos: nat, val: bool): (r: Option<Fetched>)
    ensures r.Some? ==> pos <= r.value.next
  {
    var reg := ReadUnsigned(data, pos);
    if reg.None? then None else
    var b := ReadBlock(data, reg.value.1);
    if b.None? then None else
    Some(Fetched(SetRule(Wrap32(reg.value.0), if val then ValExprRule(b.value.0) else ExprRule(b.value.0)), b.value.1))
  }

  /** A rule is inserted only where there is none. */
  function Emplaced(rules: Rules, reg: nat, rule: Rule): Rules {
    if reg in rules then rules else rules[reg := rule]
  }

  /** The effect of one instruction; None where the program throws. */
  function ExecCode(c: Context, i: Instruction): Option<Context> {
    match i
    case Nop => Some(c)
    case Advance(delta) => Some(c.(location := Wrap64(c.location + delta)))
    case SetLocation(location) => Some(c.(location := location))
    case SetRule(reg, rule) => Some(c.(rules := Emplaced(c.rules, reg, rule)))
    case Restore(reg) => if reg !in c.cieRules then None else Some(c.(rules := Emplaced(c.rules, reg, c.cieRules[reg])))
    case DefCfa(rule) => Some(c.(cfa := rule))
    case DefCfaRegister(reg) => if !c.cfa.CfaRegister? then None else Some(c.(cfa := c.cfa.(reg := reg)))
    case DefCfaOffset(offset) => if !c.cfa.CfaRegister? then None else Some(c.(cfa := c.cfa.(offset := offset)))
    case RememberState => Some(c.(stack := c.stack + [(c.rules, c.cfa)]))
    case RestoreState =>
      if c.stack == [] then None else
      var top := c.stack[|c.stack| - 1];
      Some(c.(rules := top.0, cfa := top.1, stack := c.stack[..|c.stack| - 1]))
  }

  // ---- the standard ----

  /** The kinds of operands in figure 40 of section 7.23. */
  datatype Kind = NoOperand | Uleb | Sleb | Delta(size: nat) | Target | Block

  datatype Operand = Number(n: int) | Bytes(bytes: seq<Byte>)

  /** The operands of the instructions whose high two bits are zero; None for opcodes that are not assigned. */
  function OperandsOf(opcode: nat): Option<(Kind, Kind)> {
    match opcode
    // nop, remember_state, restore_state
    case 0x00 | 0x0a | 0x0b => Some((NoOperand, NoOperand))
    // set_loc, advance_loc1, advance_loc2, advance_loc4
    case 0x01 => Some((Target, NoOperand))
    case 0x02 => Some((Delta(1), NoOperand))
    case 0x03 => Some((Delta(2), NoOperand))
    case 0x04 => Some((Delta(4), NoOperand))
    // restore_extended, undefined, same_value, def_cfa_register, def_cfa_offset
    case 0x06 | 0x07 | 0x08 | 0x0d | 0x0e => Some((Uleb, NoOperand))
    // offset_extended, register, def_cfa, val_offset
    case 0x05 | 0x09 | 0x0c | 0x14 => Some((Uleb, Uleb))
    // offset_extended_sf, def_cfa_sf, val_offset_sf
    case 0x11 | 0x12 | 0x15 => Some((Uleb, Sleb))
    // def_cfa_offset_sf
    case 0x13 => Some((Sleb, NoOperand))
    // def_cfa_expression, expression, val_expression
    case 0x0f => Some((Block, NoOperand))
    case 0x10 | 0x16 => Some((Uleb, Block))
    case _ => None
  }

  function ReadOperand(kind: Kind, data: seq<Byte>, pos: nat, cie: Cie): (r: Option<(Operand, nat)>)
    ensures r.Some? ==> pos <= r.value.1
  {
    match kind
    case NoOperand => Some((Number(0), pos))
    case Uleb =>
      var n := ReadUnsigned(data, pos);
      if n.None? then None else Some((Number(n.value.0), n.value.1))
    case Sleb =>
      var n := ReadSigned(data, pos);
      if n.None? then None else Some((Number(n.value.0), n.value.1))
    case Delta(size) =>
      if pos + size > |data| then None else Some((Number(LittleEndian(data[pos..pos + size])), pos + size))
    case Target =>
      var p := cie.readPointer(data, pos);
      if p.None? || p.value.1 < pos then None else Some((Number(p.value.0), p.value.1))
    case Block =>
      var n := ReadUnsigned(data, pos);
      if n.None? || n.value.1 + n.value.0 > |data| then None
      else Some((Bytes(data[n.value.1..][..n.value.0]), n.value.1 + n.value.0))
  }

  function Num(o: Operand): int {
    if o.Number? then o.n else 0
  }

  function Reg(o: Operand): nat {
    if o.Number? && o.n >= 0 then o.n else 0
  }

  function Expr(o: Operand): seq<Byte> {
    if o.Bytes? then o.bytes else []
  }

  /** A factored offset: the operand times the data alignment factor, in 64 bits. */
  function Factored(o: Operand, cie: Cie): int {
    Signed64(Num(o) * cie.dataAlign)
  }

  /** Section 6.4.2, instruction by instruction. */
  function Meaning(opcode: nat, a: Operand, b: Operand, cie: Cie): Instruction {
    match opcode
    // 6.4.2.1 row creation
    case 0x01 => SetLocation(Wrap64(Num(a)))
    case 0x02 | 0x03 | 0x04 => Advance(Wrap64(Num(a) * cie.codeAlign))
    // 6.4.2.2 CFA definition
    case 0x0c => DefCfa(CfaRegister(Reg(a), Signed64(Num(b))))
    case 0x12 => DefCfa(CfaRegister(Reg(a), Factored(b, cie)))
    case 0x0d => DefCfaRegister(Reg(a))
    case 0x0e => DefCfaOffset(Signed64(Num(a)))
    case 0x13 => DefCfaOffset(Factored(a, cie))
    case 0x0f => DefCfa(CfaExpr(Expr(a)))
    // 6.4.2.3 register rules
    case 0x07 => SetRule(Reg(a), Undefined)
    case 0x08 => SetRule(Reg(a), SameValue)
    case 0x05 | 0x11 => SetRule(Reg(a), OffsetRule(Factored(b, cie)))
    case 0x14 | 0x15 => SetRule(Reg(a), ValOffsetRule(Factored(b, cie)))
    case 0x09 => SetRule(Reg(a), RegisterRule(Reg(b)))
    case 0x10 => SetRule(Reg(a), ExprRule(Expr(b)))
    case 0x16 => SetRule(Reg(a), ValExprRule(Expr(b)))
    case 0x06 => Restore(Reg(a))
    // 6.4.2.4 row state
    case 0x0a => RememberState
    case 0x0b => RestoreState
    // 6.4.2.5 padding
    case _ => Nop
  }

  /** The instruction at pos, its high two bits 1, 2 or 3 with a six-bit operand, or 0. */
  function FetchStandard(data: seq<Byte>, pos: nat, cie: Cie): (r: Option<Fetched>)
    ensures r.Some? ==> pos < r.value.next
  {
    if pos >= |data| then None else
    var high, low := data[pos] / 64, data[pos] % 64;
    match high
    case 1 => Some(Fetched(Advance(Wrap64(low * cie.codeAlign)), pos + 1))
    case 2 =>
      var a := ReadOperand(Uleb, data, pos + 1, cie);
      if a.None? then None else Some(Fetched(SetRule(low, OffsetRule(Factored(a.value.0, cie))), a.value.1))
    case 3 => Some(Fetched(Restore(low), pos + 1))
    case _ => FetchWithOperands(low, data, pos + 1, cie)
  }

  function FetchWithOperands(opcode: nat, data: seq<Byte>, pos: nat, cie: Cie): (r: Option<Fetched>)
    ensures r.Some? ==> pos <= r.value.next
  {
    var kinds := OperandsOf(opcode);
    if kinds.None? then None else
    var a := ReadOperand(kinds.value.0, data, pos, cie);
    if a.None? then None else
    var b := ReadOperand(kinds.value.1, data, a.value.1, cie);
    if b.None? then None else Some(Fetched(Meaning(opcode, a.value.0, b.value.0, cie), b.value.1))
  }

  /** The columns of the row, one by one. */
  function NewLocation(c: Context, i: Instruction): nat {
    if i.Advance? then Wrap64(c.location + i.delta) else if i.SetLocation? then i.location else c.location
  }

  function NewCfa(c: Context, i: Instruction): CfaRule {
    if i.DefCfa? then i.cfaRule
    else if i.DefCfaRegister? && c.cfa.CfaRegister? then CfaRegister(i.reg, c.cfa.offset)
    else if i.DefCfaOffset? && c.cfa.CfaRegister? then CfaRegister(c.cfa.reg, i.offset)
    else if i.RestoreState? && c.stack != [] then c.stack[|c.stack| - 1].1
    else c.cfa
  }

  /** A restored register gets its rule of the initial instructions, or none if it has none there. */
  function NewRules(c: Context, i: Instruction): Rules {
    if i.SetRule? then c.rules[i.reg := i.rule]
    else if i.Restore? then if i.reg in c.cieRules then c.rules[i.reg := c.cieRules[i.reg]] else c.rules - {i.reg}
    else if i.RestoreState? && c.stack != [] then c.stack[|c.stack| - 1].0
    else c.rules
  }

  function NewStack(c: Context, i: Instruction): seq<(Rules, CfaRule)> {
    if i.RememberState? then c.stack + [(c.rules, c.cfa)]
    else if i.RestoreState? && c.stack != [] then c.stack[..|c.stack| - 1]
    else c.stack
  }

  /** The instruction is valid in this state: register and offset of a CFA need a register rule, a restored state a remembered one. */
  predicate Allowed(c: Context, i: Instruction) {
    && (i.DefCfaRegister? || i.DefCfaOffset? ==> c.cfa.CfaRegister?)
    && (i.RestoreState? ==> c.stack != [])
  }

  function ExecStandard(c: Context, i: Instruction): Option<Context> {
    if Allowed(c, i) then Some(Context(NewLocation(c, i), NewCfa(c, i), c.cieRules, NewRules(c, i), NewStack(c, i)))
    else None
  }

  // ---- runs ----

  function Fetch(data: seq<Byte>, pos: nat, cie: Cie, reading: Reading): (r: Option<Fetched>)
    ensures r.Some? ==> pos < r.value.next
  {
    if reading == Code then FetchCode(data, pos, cie) else FetchStandard(data, pos, cie)
  }

  function Exec(c: Context, i: Instruction, reading: Reading): Option<Context> {
    if reading == Code then ExecCode(c, i) else ExecStandard(c, i)
  }

  /** One instruction at pos, executed. */
  function StepAt(data: seq<Byte>, pos: nat, cie: Cie, c: Context, reading: Reading): (r: Option<(Context, nat)>)
    ensures r.Some? ==> pos < r.value.1
  {
    var f := Fetch(data, pos, cie, reading);
    if f.None? then None else
    var c' := Exec(c, f.value.instruction, reading);
    if c'.None? then None else Some((c'.value, f.value.next))
  }

  /** The whole program. */
  function RunAll(data: seq<Byte>, pos: nat, cie: Cie, c: Context, reading: Reading): Option<Context>
    decreases |data| - pos
  {
    if pos >= |data| then Some(c) else
    var s := StepAt(data, pos, cie, c, reading);
    if s.None? then None else RunAll(data, s.value.1, cie, s.value.0, reading)
  }

  /** The program up to the first location above pc. */
  function RunTo(data: seq<Byte>, pos: nat, cie: Cie, c: Context, pc: nat, reading: Reading): Option<Context>
    decreases |data| - pos
  {
    if pos >= |data| || c.location > pc then Some(c) else
    var s := StepAt(data, pos, cie, c, reading);
    if s.None? then None else RunTo(data, s.value.1, cie, s.value.0, pc, reading)
  }

  /** One row of the table: the rules in force from this location on. */
  datatype Row = Row(location: nat, cfa: CfaRule, rules: Rules)

  function RowOf(c: Context): Row {
    Row(c.location, c.cfa, c.rules)
  }

  predicate Moves(i: Instruction) {
    i.Advance? || i.SetLocation?
  }

  /** Section 6.4.3: every change of location closes a row; the end closes the last. */
  function Table(data: seq<Byte>, pos: nat, cie: Cie, c: Context, reading: Reading): (rows: Option<seq<Row>>)
    ensures rows.Some? ==> rows.value != [] && rows.value[0].location == c.location
    decreases |data| - pos
  {
    if pos >= |data| then Some([RowOf(c)]) else
    var s := StepAt(data, pos, cie, c, reading);
    if s.None? then None else
    var rest := Table(data, s.value.1, cie, s.value.0, reading);
    if rest.None? then None
    else if Moves(Fetch(data, pos, cie, reading).value.instruction) then Some([RowOf(c)] + rest.value)
    else rest
  }

  /** The row before the first one that lies above pc. */
  function RowBeforeFirstAbove(rows: seq<Row>, pc: nat): Row
    requires rows != [] && rows[0].location <= pc
  {
    if |rows| == 1 || rows[1].location > pc then rows[0] else RowBeforeFirstAbove(rows[1..], pc)
  }

  /** Row k is the last one at or below pc. */
  predicate LastAtOrBelow(rows: seq<Row>, pc: nat, k: int) {
    && 0 <= k < |rows| && rows[k].location <= pc
    && forall j | k < j < |rows| :: rows[j].location > pc
  }

  predicate NonDecreasing(rows: seq<Row>) {
    forall i, j | 0 <= i < j < |rows| :: rows[i].location <= rows[j].location
  }

  /** Same rules, whatever the location. */
  predicate SameRules(c: Context, r: Row) {
    c.cfa == r.cfa && c.rules == r.rules
  }

  /**
    For every program that runs through, stopping early yields the rules of the
    row before the first row above pc, whether or not locations increase.
   */
  lemma {:induction false} EarlyStopRow(data: seq<Byte>, pos: nat, cie: Cie, c: Context, pc: nat, reading: Reading)
    requires c.location <= pc && Table(data, pos, cie, c, reading).Some?
    ensures RunTo(data, pos, cie, c, pc, reading).Some?
    ensures SameRules(RunTo(data, pos, cie, c, pc, reading).value,
                      RowBeforeFirstAbove(Table(data, pos, cie, c, reading).value, pc))
    decreases |data| - pos
  {
    if pos < |data| {
      var s := StepAt(data, pos, cie, c, reading).value;
      var rest := Table(data, s.1, cie, s.0, reading).value;
      if s.0.location > pc {
        assert RunTo(data, s.1, cie, s.0, pc, reading) == Some(s.0);
        assert Moves(Fetch(data, pos, cie, reading).value.instruction);
      } else {
        EarlyStopRow(data, s.1, cie, s.0, pc, reading);
        if Moves(Fetch(data, pos, cie, reading).value.instruction) {
          assert ([RowOf(c)] + rest)[1..] == rest;
        }
      }
    }
  }

  lemma {:induction false} RowBeforeIsLast(rows: seq<Row>, pc: nat) returns (k: int)
    requires rows != [] && rows[0].location <= pc && NonDecreasing(rows)
    ensures LastAtOrBelow(rows, pc, k) && rows[k] == RowBeforeFirstAbove(rows, pc)
    decreases |rows|
  {
    if |rows| == 1 || rows[1].location > pc {
      k := 0;
    } else {
      k := RowBeforeIsLast(rows[1..], pc);
      k := k + 1;
    }
  }

  /**
    Stopping once the location exceeds pc gives the rules of the last row at or
    below pc in the table of the whole program, when locations do not decrease.
   */
  lemma EarlyStopIsTableLookup(data: seq<Byte>, cie: Cie, c: Context, pc: nat, reading: Reading) returns (k: int)
    requires c.location <= pc && Table(data, 0, cie, c, reading).Some?
    requires NonDecreasing(Table(data, 0, cie, c, reading).value)
    ensures RunTo(data, 0, cie, c, pc, reading).Some?
    ensures LastAtOrBelow(Table(data, 0, cie, c, reading).value, pc, k)
    ensures SameRules(RunTo(data, 0, cie, c, pc, reading).value, Table(data, 0, cie, c, reading).value[k])
  {
    EarlyStopRow(data, 0, cie, c, pc, reading);
    k := RowBeforeIsLast(Table(data, 0, cie, c, reading).value, pc);
  }

  /** The contexts after each instruction, up to the first one that cannot execute. */
  function Trace(data: seq<Byte>, pos: nat, cie: Cie, c: Context, reading: Reading): seq<Context>
    decreases |data| - pos
  {
    if pos >= |data| then [] else
    var s := StepAt(data, pos, cie, c, reading);
    if s.None? then [] else [s.value.0] + Trace(data, s.value.1, cie, s.value.0, reading)
  }

  /** The register has this rule, or none. */
  predicate HasRule(rules: Rules, reg: nat, rule: Option<Rule>) {
    if rule.None? then reg !in rules else reg in rules && rules[reg] == rule.value
  }

  function RuleOf(rules: Rules, reg: nat): Option<Rule> {
    if reg in rules then Some(rules[reg]) else None
  }

  /** The rule that the program builds for one of the standard's. */
  function DistortedRule(rule: Rule): Rule {
    match rule
    case RegisterRule(reg) => RegisterRule(Wrap32(reg))
    case ExprRule(e) => ValExprRule(e)
    case ValExprRule(e) => ExprRule(e)
    case _ => rule
  }

  /**
    The program's reading of an instruction: register numbers and the offset of
    DW_CFA_def_cfa are cut to 32 bits, and the two kinds of expressions exchanged.
   */
  function Distorted(opcode: nat, s: Instruction): Instruction {
    match s
    case SetRule(reg, rule) => SetRule(Wrap32(reg), DistortedRule(rule))
    case Restore(reg) => Restore(Wrap32(reg))
    case DefCfaRegister(reg) => DefCfaRegister(Wrap32(reg))
    case DefCfa(rule) =>
      if !rule.CfaRegister? then s
      else DefCfa(CfaRegister(Wrap32(rule.reg), if opcode == 0x0c then Wrap32(rule.offset) else rule.offset))
    case _ => s
  }

  /**
    Where the program leaves the standard, f being its reading of s: a register
    that has a rule keeps it though the standard gives it another or none; a new
    rule goes to another register or is another rule; a register without a rule in
    the CIE is restored; a CFA gets another register or offset.
   */
  predicate InstructionDeviates(c: Context, opcode: nat, s: Instruction) {
    var f := Distorted(opcode, s);
    match s
    case SetRule(reg, rule) => if f.reg in c.rules then !HasRule(c.rules, reg, Some(rule)) else f != s
    case Restore(reg) =>
      || f.reg !in c.cieRules
      || (if f.reg in c.rules then !HasRule(c.rules, reg, RuleOf(c.cieRules, reg)) else f != s)
    case DefCfa(rule) => f != s
    case DefCfaRegister(reg) => c.cfa.CfaRegister? && f != s
    case _ => false
  }

  /** The standard assigns no instruction to the opcode. */
  predicate Unassigned(opcode: nat) {
    opcode < 64 && OperandsOf(opcode).None?
  }

  /** The instruction at pos deviates, or the standard does not define its opcode. */
  predicate Deviates(data: seq<Byte>, pos: nat, cie: Cie, c: Context) {
    pos < |data| &&
    var s := FetchStandard(data, pos, cie);
    if s.None? then Unassigned(data[pos]) else InstructionDeviates(c, data[pos], s.value.instruction)
  }

  /** No instruction that the standard's run reaches deviates. */
  predicate NeverDeviates(data: seq<Byte>, pos: nat, cie: Cie, c: Context)
    decreases |data| - pos
  {
    pos >= |data| || (
      && !Deviates(data, pos, cie, c)
      && var s := StepAt(data, pos, cie, c, Standard);
         s.None? || NeverDeviates(data, s.value.1, cie, s.value.0))
  }

  /** The same up to the first location above pc. */
  predicate NeverDeviatesTo(data: seq<Byte>, pos: nat, cie: Cie, c: Context, pc: nat)
    decreases |data| - pos
  {
    pos >= |data| || c.location > pc || (
      && !Deviates(data, pos, cie, c)
      && var s := StepAt(data, pos, cie, c, Standard);
         s.None? || NeverDeviatesTo(data, s.value.1, cie, s.value.0, pc))
  }

  /** The program's reading f of what the standard reads as s. */
  predicate Relates(opcode: nat, pos: nat, f: Option<Fetched>, s: Option<Fetched>) {
    f == if s.Some? then Some(Fetched(Distorted(opcode, s.value.instruction), s.value.next))
         else if Unassigned(opcode) then Some(Fetched(Nop, pos))
         else None
  }

  lemma SignedFactor(n: nat, d: int)
    requires n < MODULUS
    ensures Signed64(ToSigned(n) * d) == Signed64(n * d) && Signed64(n) == ToSigned(n)
  {
    if n >= MODULUS / 2 {
      assert (n - MODULUS) * d == n * d - MODULUS * d;
      ModuloShift(n * d, d);
    }
  }

  lemma ModuloShift(x: int, d: int)
    ensures (x - MODULUS * d) % MODULUS == x % MODULUS
  {
    var q := x / MODULUS;
    assert x == q * MODULUS + x % MODULUS;
    assert x - MODULUS * d == (q - d) * MODULUS + x % MODULUS;
  }

  lemma CutSigned(n: nat)
    requires n < MODULUS
    ensures Wrap32(Signed64(n)) == Wrap32(n)
  {
    if n >= MODULUS / 2 {
      assert n - MODULUS == n - 0x1_0000_0000 * 0x1_0000_0000;
    }
  }

  /** The program reads every instruction as the standard does, up to cut numbers and exchanged expressions. */
  lemma FetchRelates(data: seq<Byte>, pos: nat, cie: Cie)
    requires pos < |data|
    ensures Relates(data[pos], pos + 1, FetchCode(data, pos, cie), FetchStandard(data, pos, cie))
  {
    var opcode := data[pos];
    if opcode < 64 {
      ExtendedRelates(opcode, data, pos + 1, cie);
    } else if 128 <= opcode < 192 {
      OffsetRelates(data, pos, cie);
    }
  }

  lemma OffsetRelates(data: seq<Byte>, pos: nat, cie: Cie)
    requires pos < |data| && 128 <= data[pos] < 192
    ensures Relates(data[pos], pos + 1, FetchCode(data, pos, cie), FetchStandard(data, pos, cie))
  {
    var n := ReadUnsigned(data, pos + 1);
    if n.Some? {
      SignedFactor(n.value.0, cie.dataAlign);
    }
  }

  lemma ExtendedRelates(opcode: nat, data: seq<Byte>, pos: nat, cie: Cie)
    requires opcode < 64
    ensures Relates(opcode, pos, FetchExtended(opcode, data, pos, cie), FetchWithOperands(opcode, data, pos, cie))
  {
    match opcode {
      case 0x02 => DeltaRelates(opcode, 1, data, pos, cie);
      case 0x03 => DeltaRelates(opcode, 2, data, pos, cie);
      case 0x04 => DeltaRelates(opcode, 4, data, pos, cie);
      case 0x05 | 0x14 => PairRelates(opcode, data, pos, cie);
      case 0x0c => PairRelates(opcode, data, pos, cie);
      case 0x0e => NumberRelates(data, pos, cie);
      case 0x0f => BlocksAgree(data, pos);
      case 0x10 | 0x16 => ExpressionRelates(opcode, data, pos, cie);
      case _ =>
    }
  }

  lemma DeltaRelates(opcode: nat, size: nat, data: seq<Byte>, pos: nat, cie: Cie)
    requires (opcode == 2 && size == 1) || (opcode == 3 && size == 2) || (opcode == 4 && size == 4)
    ensures Relates(opcode, pos, FetchExtended(opcode, data, pos, cie), FetchWithOperands(opcode, data, pos, cie))
  {
    if pos + size <= |data| {
      FixedIsLittleEndian(data, pos, size);
    }
  }

  lemma PairRelates(opcode: nat, data: seq<Byte>, pos: nat, cie: Cie)
    requires opcode == 0x05 || opcode == 0x14 || opcode == 0x0c
    ensures Relates(opcode, pos, FetchExtended(opcode, data, pos, cie), FetchWithOperands(opcode, data, pos, cie))
  {
    var p := ReadPair(data, pos);
    if p.Some? {
      SignedFactor(p.value.1, cie.dataAlign);
      CutSigned(p.value.1);
    }
  }

  lemma BlocksAgree(data: seq<Byte>, pos: nat)
    ensures forall cie :: ReadOperand(Block, data, pos, cie) ==
              var b := ReadBlock(data, pos); if b.None? then None else Some((Bytes(b.value.0), b.value.1))
  {
    var n := ReadUnsigned(data, pos);
    if n.Some? && n.value.1 + n.value.0 <= |data| {
      assert data[n.value.1..][..n.value.0] == data[n.value.1..n.value.1 + n.value.0];
    }
  }

  lemma ExpressionRelates(opcode: nat, data: seq<Byte>, pos: nat, cie: Cie)
    requires opcode == 0x10 || opcode == 0x16
    ensures Relates(opcode, pos, FetchExtended(opcode, data, pos, cie), FetchWithOperands(opcode, data, pos, cie))
  {
    var reg := ReadUnsigned(data, pos);
    if reg.Some? {
      BlocksAgree(data, reg.value.1);
    }
  }

  lemma NumberRelates(data: seq<Byte>, pos: nat, cie: Cie)
    ensures Relates(0x0e, pos, FetchExtended(0x0e, data, pos, cie), FetchWithOperands(0x0e, data, pos, cie))
  {
    var n := ReadUnsigned(data, pos);
    if n.Some? {
      SignedFactor(n.value.0, 1);
    }
  }

  lemma PutsDiffer(rules: Rules, reg: nat, rule: Rule, reg': nat, rule': Option<Rule>)
    ensures var after := if rule'.Some? then rules[reg' := rule'.value] else rules - {reg'};
            Emplaced(rules, reg, rule) == after <==>
            if reg in rules then HasRule(rules, reg', rule') else reg == reg' && rule' == Some(rule)
  {
    var after := if rule'.Some? then rules[reg' := rule'.value] else rules - {reg'};
    assert HasRule(after, reg', rule');
    if reg in rules {
      if HasRule(rules, reg', rule') {
        assert after == rules;
      }
    } else {
      assert reg in rules[reg := rule] && rules[reg := rule][reg] == rule;
    }
  }

  /** The two readings of one instruction agree exactly when it does not deviate. */
  lemma ExecAgreesIff(c: Context, opcode: nat, s: Instruction)
    ensures ExecCode(c, Distorted(opcode, s)) == ExecStandard(c, s) <==> !InstructionDeviates(c, opcode, s)
  {
    var f := Distorted(opcode, s);
    if s.SetRule? {
      PutsDiffer(c.rules, f.reg, f.rule, s.reg, Some(s.rule));
    } else if s.Restore? && f.reg in c.cieRules {
      PutsDiffer(c.rules, f.reg, c.cieRules[f.reg], s.reg, RuleOf(c.cieRules, s.reg));
    }
  }

  lemma StepAgreesIff(data: seq<Byte>, pos: nat, cie: Cie, c: Context)
    ensures StepAt(data, pos, cie, c, Code) == StepAt(data, pos, cie, c, Standard) <==> !Deviates(data, pos, cie, c)
    ensures var s, t := StepAt(data, pos, cie, c, Code), StepAt(data, pos, cie, c, Standard);
            s.Some? && t.Some? ==> s.value.1 == t.value.1
  {
    if pos < |data| {
      FetchRelates(data, pos, cie);
      var s := FetchStandard(data, pos, cie);
      if s.Some? {
        ExecAgreesIff(c, data[pos], s.value.instruction);
      }
    }
  }

  /**
    The program has the standard's context after every instruction, and fails
    where the standard gives no meaning, if and only if no instruction reached
    deviates, however states are remembered and restored.
   */
  lemma {:induction false} CodeIsStandardIff(data: seq<Byte>, pos: nat, cie: Cie, c: Context)
    ensures Trace(data, pos, cie, c, Code) == Trace(data, pos, cie, c, Standard) <==> NeverDeviates(data, pos, cie, c)
    decreases |data| - pos
  {
    if pos < |data| {
      StepAgreesIff(data, pos, cie, c);
      var s, t := StepAt(data, pos, cie, c, Code), StepAt(data, pos, cie, c, Standard);
      var rest := if s.Some? then Trace(data, s.value.1, cie, s.value.0, Code) else [];
      var rest' := if t.Some? then Trace(data, t.value.1, cie, t.value.0, Standard) else [];
      if s.Some? && t.Some? {
        assert ([s.value.0] + rest)[0] == s.value.0 && ([t.value.0] + rest')[0] == t.value.0;
        assert ([s.value.0] + rest)[1..] == rest && ([t.value.0] + rest')[1..] == rest';
        if s == t {
          CodeIsStandardIff(data, t.value.1, cie, t.value.0);
        }
      }
    }
  }

  lemma SameMoves(data: seq<Byte>, pos: nat, cie: Cie)
    requires Fetch(data, pos, cie, Standard).Some?
    ensures Fetch(data, pos, cie, Code).Some?
    ensures Moves(Fetch(data, pos, cie, Code).value.instruction) <==> Moves(Fetch(data, pos, cie, Standard).value.instruction)
  {
    FetchRelates(data, pos, cie);
  }

  /** Under that condition the rows and the early stop are the standard's too. */
  lemma {:induction false} SameRowsWhenNeverDeviating(data: seq<Byte>, pos: nat, cie: Cie, c: Context, pc: nat)
    requires NeverDeviates(data, pos, cie, c)
    ensures Table(data, pos, cie, c, Code) == Table(data, pos, cie, c, Standard)
    ensures RunTo(data, pos, cie, c, pc, Code) == RunTo(data, pos, cie, c, pc, Standard)
    ensures RunAll(data, pos, cie, c, Code) == RunAll(data, pos, cie, c, Standard)
    decreases |data| - pos
  {
    if pos < |data| {
      StepAgreesIff(data, pos, cie, c);
      var t := StepAt(data, pos, cie, c, Standard);
      if t.Some? {
        SameMoves(data, pos, cie);
        SameRowsWhenNeverDeviating(data, t.value.1, cie, t.value.0, pc);
      }
    }
  }

  /** For the early stop only the instructions up to pc matter. */
  lemma {:induction false} SameEarlyStop(data: seq<Byte>, pos: nat, cie: Cie, c: Context, pc: nat)
    requires NeverDeviatesTo(data, pos, cie, c, pc)
    ensures RunTo(data, pos, cie, c, pc, Code) == RunTo(data, pos, cie, c, pc, Standard)
    decreases |data| - pos
  {
    if pos < |data| && c.location <= pc {
      StepAgreesIff(data, pos, cie, c);
      var t := StepAt(data, pos, cie, c, Standard);
      if t.Some? {
        SameEarlyStop(data, t.value.1, cie, t.value.0, pc);
      }
    }
  }

  // ---- remembered states ----

  /** n instructions from pos on, and where the next one starts. */
  function RunSteps(data: seq<Byte>, pos: nat, cie: Cie, c: Context, n: nat, reading: Reading): Option<(Context, nat)>
    decreases n
  {
    if n == 0 then Some((c, pos)) else
    var s := StepAt(data, pos, cie, c, reading);
    if s.None? then None else RunSteps(data, s.value.1, cie, s.value.0, n - 1, reading)
  }

  /** At least so many states are remembered throughout the n instructions. */
  predicate StaysAbove(data: seq<Byte>, pos: nat, cie: Cie, c: Context, n: nat, depth: nat, reading: Reading)
    decreases n
  {
    && |c.stack| >= depth
    && (n > 0 ==>
          var s := StepAt(data, pos, cie, c, reading);
          s.Some? ==> StaysAbove(data, s.value.1, cie, s.value.0, n - 1, depth, reading))
  }

  lemma ExecKeepsBelow(c: Context, i: Instruction, depth: nat, reading: Reading)
    requires Exec(c, i, reading).Some? && |c.stack| >= depth && |Exec(c, i, reading).value.stack| >= depth
    ensures Exec(c, i, reading).value.stack[..depth] == c.stack[..depth]
  {
  }

  lemma {:induction false} StackBelowStays(data: seq<Byte>, pos: nat, cie: Cie, c: Context, n: nat, depth: nat, reading: Reading)
    requires RunSteps(data, pos, cie, c, n, reading).Some? && StaysAbove(data, pos, cie, c, n, depth, reading)
    ensures var c' := RunSteps(data, pos, cie, c, n, reading).value.0;
            |c.stack| >= depth && |c'.stack| >= depth && c'.stack[..depth] == c.stack[..depth]
    decreases n
  {
    if n > 0 {
      var s := StepAt(data, pos, cie, c, reading).value;
      StackBelowStays(data, s.1, cie, s.0, n - 1, depth, reading);
      ExecKeepsBelow(c, Fetch(data, pos, cie, reading).value.instruction, depth, reading);
    }
  }

  /**
    DW_CFA_remember_state, any balanced stretch of instructions, and the
    DW_CFA_restore_state that belongs to it: rules and CFA are those before, no
    state is left remembered that was not before, and the location is that of the
    stretch.
   */
  lemma RestoresRemembered(data: seq<Byte>, pos: nat, cie: Cie, c: Context, n: nat, reading: Reading)
    requires pos < |data| && data[pos] == 0x0a && StepAt(data, pos, cie, c, reading).Some?
    requires var s := StepAt(data, pos, cie, c, reading).value;
             var r := RunSteps(data, s.1, cie, s.0, n, reading);
             && r.Some? && r.value.1 < |data| && data[r.value.1] == 0x0b
             && StaysAbove(data, s.1, cie, s.0, n, |c.stack| + 1, reading) && |r.value.0.stack| == |c.stack| + 1
    ensures var s := StepAt(data, pos, cie, c, reading).value;
            var r := RunSteps(data, s.1, cie, s.0, n, reading).value;
            var t := StepAt(data, r.1, cie, r.0, reading);
            && t.Some? && t.value.1 == r.1 + 1
            && t.value.0.rules == c.rules && t.value.0.cfa == c.cfa && t.value.0.stack == c.stack
            && t.value.0.location == r.0.location && t.value.0.cieRules == r.0.cieRules
  {
    var s := StepAt(data, pos, cie, c, reading).value;
    var r := RunSteps(data, s.1, cie, s.0, n, reading).value;
    RememberStep(data, pos, cie, c, reading);
    StackBelowStays(data, s.1, cie, s.0, n, |c.stack| + 1, reading);
    RestoreStep(data, r.1, cie, r.0, reading);
    assert r.0.stack == r.0.stack[..|c.stack| + 1] == c.stack + [(c.rules, c.cfa)];
    assert r.0.stack[..|c.stack|] == c.stack;
  }

  lemma RememberStep(data: seq<Byte>, pos: nat, cie: Cie, c: Context, reading: Reading)
    requires pos < |data| && data[pos] == 0x0a
    ensures StepAt(data, pos, cie, c, reading) == Some((c.(stack := c.stack + [(c.rules, c.cfa)]), pos + 1))
  {
    assert Fetch(data, pos, cie, reading) == Some(Fetched(RememberState, pos + 1));
  }

  lemma RestoreStep(data: seq<Byte>, pos: nat, cie: Cie, c: Context, reading: Reading)
    requires pos < |data| && data[pos] == 0x0b && c.stack != []
    ensures var top := c.stack[|c.stack| - 1];
            StepAt(data, pos, cie, c, reading)
            == Some((c.(rules := top.0, cfa := top.1, stack := c.stack[..|c.stack| - 1]), pos + 1))
  {
    assert Fetch(data, pos, cie, reading) == Some(Fetched(RestoreState, pos + 1));
  }

  /** Two offsets for the same register: the program keeps the first, the standard the second. */
  lemma SecondOffsetIsLost(cie: Cie, c: Context)
    requires cie.dataAlign == -8 && c.rules == map[]
    ensures var program: seq<Byte> := [0x83, 1, 0x83, 2];
            && RunAll(program, 0, cie, c, Code) == Some(c.(rules := map[3 := OffsetRule(-8)]))
            && RunAll(program, 0, cie, c, Standard) == Some(c.(rules := map[3 := OffsetRule(-16)]))
  {
    var program: seq<Byte> := [0x83, 1, 0x83, 2];
    OneByteNumber(program, 1);
    OneByteNumber(program, 3);
    var once := c.(rules := map[3 := OffsetRule(-8)]);
    forall reading: Reading
      ensures StepAt(program, 0, cie, c, reading) == Some((once, 2))
      ensures StepAt(program, 2, cie, once, reading)
              == Some((once.(rules := if reading == Code then once.rules else once.rules[3 := OffsetRule(-16)]), 4))
    {
    }
    assert once.rules[3 := OffsetRule(-16)] == map[3 := OffsetRule(-16)];
  }

  /** DW_CFA_restore of a register for which the CIE has no rule: the program throws. */
  lemma RestoreWithoutCieRuleFails(cie: Cie, c: Context)
    requires 3 !in c.cieRules
    ensures var program: seq<Byte> := [0xc3];
            && RunAll(program, 0, cie, c, Code) == None
            && RunAll(program, 0, cie, c, Standard) == Some(c.(rules := c.rules - {3}))
  {
    var program: seq<Byte> := [0xc3];
    assert Fetch(program, 0, cie, Code) == Fetch(program, 0, cie, Standard) == Some(Fetched(Restore(3), 1));
  }

  /** DW_CFA_expression with an empty expression: the program makes it a value. */
  lemma ExpressionBecomesValue(cie: Cie, c: Context)
    requires 3 !in c.rules
    ensures var program: seq<Byte> := [0x10, 3, 0];
            && RunAll(program, 0, cie, c, Code) == Some(c.(rules := c.rules[3 := ValExprRule([])]))
            && RunAll(program, 0, cie, c, Standard) == Some(c.(rules := c.rules[3 := ExprRule([])]))
  {
    var program: seq<Byte> := [0x10, 3, 0];
    OneByteNumber(program, 1);
    OneByteNumber(program, 2);
    assert ReadBlock(program, 2) == Some((program[3..3], 3)) && program[3..3] == [];
    EmptyExpression(program, cie, Code);
    EmptyExpression(program, cie, Standard);
    OnlyInstruction(program, cie, c, c.(rules := c.rules[3 := ValExprRule([])]), Code);
    OnlyInstruction(program, cie, c, c.(rules := c.rules[3 := ExprRule([])]), Standard);
  }

  lemma EmptyExpression(program: seq<Byte>, cie: Cie, reading: Reading)
    requires |program| == 3 && program[0] == 0x10
    requires ReadUnsigned(program, 1) == Some((3, 2)) && ReadUnsigned(program, 2) == Some((0, 3))
    ensures Fetch(program, 0, cie, reading) == Some(Fetched(SetRule(3, if reading == Code then ValExprRule([]) else ExprRule([])), 3))
  {
    assert program[3..][..0] == [] && program[3..3] == [];
  }

  lemma OnlyInstruction(program: seq<Byte>, cie: Cie, c: Context, after: Context, reading: Reading)
    requires |program| > 0 && StepAt(program, 0, cie, c, reading) == Some((after, |program|))
    ensures RunAll(program, 0, cie, c, reading) == Some(after)
  {
  }

  /** DW_CFA_def_cfa with register 7 and this offset. */
  function DefCfaProgram(offset: nat): seq<Byte> {
    [0x0c, 7] + EncodeUnsigned(offset)
  }

  /** DW_CFA_def_cfa loses the upper half of its offset, so that every offset from 2^32 on is changed. */
  lemma WideOffsetIsCut(cie: Cie, c: Context, offset: nat)
    requires offset < MODULUS
    ensures RunAll(DefCfaProgram(offset), 0, cie, c, Code) == Some(c.(cfa := CfaRegister(7, Wrap32(offset))))
    ensures RunAll(DefCfaProgram(offset), 0, cie, c, Standard) == Some(c.(cfa := CfaRegister(7, ToSigned(offset))))
    ensures Wrap32(offset) != ToSigned(offset) <==> offset >= 0x1_0000_0000
  {
    var program := DefCfaProgram(offset);
    DefCfaReads(program, offset);
    DefCfaStep(program, 0, offset, cie, c, Code);
    DefCfaStep(program, 0, offset, cie, c, Standard);
    CutIff(offset);
  }

  lemma CutIff(offset: nat)
    requires offset < MODULUS
    ensures Wrap32(offset) != ToSigned(offset) <==> offset >= 0x1_0000_0000
  {
  }

  lemma DefCfaStep(program: seq<Byte>, pos: nat, offset: nat, cie: Cie, c: Context, reading: Reading)
    requires pos == 0 && |program| >= 2 && program[0] == 0x0c && ReadPair(program, 1).Some?
    requires ReadPair(program, 1).value.0 == 7 && ReadPair(program, 1).value.1 == offset
    requires ReadPair(program, 1).value.2 == |program|
    ensures var n := if reading == Code then Wrap32(offset) else ToSigned(offset);
            RunAll(program, pos, cie, c, reading) == Some(c.(cfa := CfaRegister(7, n)))
  {
    SignedFactor(offset, 1);
    assert Fetch(program, pos, cie, reading) == if reading == Code then FetchExtended(0x0c, program, 1, cie)
                                                else FetchWithOperands(0x0c, program, 1, cie);
  }

  lemma DefCfaReads(program: seq<Byte>, offset: nat)
    requires offset < MODULUS && program == DefCfaProgram(offset)
    ensures ReadPair(program, 1).Some? && ReadPair(program, 1).value.0 == 7
    ensures ReadPair(program, 1).value.1 == offset && ReadPair(program, 1).value.2 == |program|
  {
    OneByteNumber(program, 1);
    assert program[2..2 + |EncodeUnsigned(offset)|] == EncodeUnsigned(offset);
    UnsignedRoundTrip(offset, program, 2);
  }

  /** An opcode outside the standard, such as DW_CFA_GNU_args_size: the program takes it for one without operands. */
  lemma UnknownOpcodeIsSkipped(cie: Cie, c: Context)
    ensures var program: seq<Byte> := [0x2e];
            RunAll(program, 0, cie, c, Code) == Some(c) && RunAll(program, 0, cie, c, Standard) == None
  {
    var program: seq<Byte> := [0x2e];
    assert Fetch(program, 0, cie, Code) == Some(Fetched(Nop, 1)) && Fetch(program, 0, cie, Standard) == None;
  }

  /** The program starts with a value-initialised CFA rule, register 0 and offset 0. */
  const StartOfCie := Context(0, CfaRegister(0, 0), map[], map[], [])

  const StandardStart := StartOfCie.(cfa := NoCfa)

  /** The context the FDE program starts from. */
  function StartOfFde(c: Context, initial: nat): Context {
    c.(cieRules := c.rules, location := initial)
  }

  /** The rules unwind applies: the CIE program, then the FDE program up to pc. */
  function RulesAt(cieProgram: seq<Byte>, fdeProgram: seq<Byte>, cie: Cie, initial: nat, pc: nat, reading: Reading)
    : Option<Context>
  {
    var c := RunAll(cieProgram, 0, cie, StartOfCie, reading);
    if c.None? then None else RunTo(fdeProgram, 0, cie, StartOfFde(c.value, initial), pc, reading)
  }

  /** unwind_context and the loops of unwind, updating it in place. */
  class UnwindContext {
    var cur: nat
    var location: nat
    var cfa: CfaRule
    var cieRules: Rules
    var rules: Rules
    var stack: seq<(Rules, CfaRule)>

    ghost function Snapshot(): Context
      reads this
    {
      Context(location, cfa, cieRules, rules, stack)
    }

    constructor ()
      ensures cur == 0 && Snapshot() == StartOfCie
    {
      cur, location, cfa, cieRules, rules, stack := 0, 0, CfaRegister(0, 0), map[], map[], [];
    }

    method Emplace(reg: nat, rule: Rule)
      modifies this`rules
      ensures rules == Emplaced(old(rules), reg, rule)
    {
      if reg !in rules {
        rules := rules[reg := rule];
      }
    }

    /** execute_cfi_instruction; false where it throws or reads past the end. */
    method ExecuteInstruction(data: seq<Byte>, cie: Cie) returns (ok: bool)
      modifies this
      ensures var s := StepAt(data, old(cur), cie, old(Snapshot()), Code);
              ok == s.Some? && (ok ==> s.value == (Snapshot(), cur))
    {
      var f := FetchCode(data, cur, cie);
      if f.None? {
        return false;
      }
      cur := f.value.next;
      match f.value.instruction {
      case Nop => {}
      case Advance(delta) => location := Wrap64(location + delta);
      case SetLocation(l) => location := l;
      case SetRule(reg, rule) => Emplace(reg, rule);
      case Restore(reg) =>
        if reg !in cieRules {
          return false;
        }
        Emplace(reg, cieRules[reg]);
      case DefCfa(rule) => cfa := rule;
      case DefCfaRegister(reg) =>
        if !cfa.CfaRegister? {
          return false;
        }
        cfa := cfa.(reg := reg);
      case DefCfaOffset(offset) =>
        if !cfa.CfaRegister? {
          return false;
        }
        cfa := cfa.(offset := offset);
      case RememberState => stack := stack + [(rules, cfa)];
      case RestoreState =>
        if stack == [] {
          return false;
        }
        rules, cfa := stack[|stack| - 1].0, stack[|stack| - 1].1;
        stack := stack[..|stack| - 1];
      }
      return true;
    }

    /** The two loops of unwind. */
    method Unwind(cieProgram: seq<Byte>, fdeProgram: seq<Byte>, cie: Cie, initial: nat, pc: nat) returns (ok: bool)
      requires cur == 0 && Snapshot() == StartOfCie
      modifies this
      ensures ok == RulesAt(cieProgram, fdeProgram, cie, initial, pc, Code).Some?
      ensures ok ==> RulesAt(cieProgram, fdeProgram, cie, initial, pc, Code) == Some(Snapshot())
    {
      while cur < |cieProgram|
        invariant RunAll(cieProgram, 0, cie, StartOfCie, Code)
                  == RunAll(cieProgram, cur, cie, Snapshot(), Code)
        decreases |cieProgram| - cur
      {
        ok := ExecuteInstruction(cieProgram, cie);
        if !ok {
          return;
        }
      }
      cieRules, cur, location := rules, 0, initial;
      ghost var start := Snapshot();
      while cur < |fdeProgram| && location <= pc
        invariant RunTo(fdeProgram, 0, cie, start, pc, Code)
                  == RunTo(fdeProgram, cur, cie, Snapshot(), pc, Code)
        decreases |fdeProgram| - cur
      {
        ok := ExecuteInstruction(fdeProgram, cie);
        if !ok {
          return;
        }
      }
      ok := true;
    }
  }

  // ---- a CFA that is not defined yet ----

  function InitCfa(cfa: CfaRule): CfaRule {
    if cfa == NoCfa then CfaRegister(0, 0) else cfa
  }

  function InitStack(stack: seq<(Rules, CfaRule)>): (r: seq<(Rules, CfaRule)>)
    ensures |r| == |stack| && forall k | 0 <= k < |r| :: r[k] == (stack[k].0, InitCfa(stack[k].1))
  {
    seq(|stack|, k requires 0 <= k < |stack| => (stack[k].0, InitCfa(stack[k].1)))
  }

  /** The context with the program's initial CFA in place of an undefined one. */
  function Init(c: Context): Context {
    c.(cfa := InitCfa(c.cfa), stack := InitStack(c.stack))
  }

  function InitRows(rows: seq<Row>): (r: seq<Row>)
    ensures |r| == |rows| && forall k | 0 <= k < |r| :: r[k] == rows[k].(cfa := InitCfa(rows[k].cfa))
  {
    seq(|rows|, k requires 0 <= k < |rows| => rows[k].(cfa := InitCfa(rows[k].cfa)))
  }

  predicate DefinesCfa(i: Instruction) {
    i.DefCfa? ==> i.cfaRule != NoCfa
  }

  lemma FetchedDefinesCfa(data: seq<Byte>, pos: nat, cie: Cie)
    ensures var s := Fetch(data, pos, cie, Standard); s.Some? ==> DefinesCfa(s.value.instruction)
  {
  }

  lemma ExecInit(c: Context, i: Instruction)
    requires Exec(c, i, Standard).Some? && DefinesCfa(i)
    ensures Exec(Init(c), i, Standard) == Some(Init(Exec(c, i, Standard).value))
  {
    match i {
      case RememberState => assert InitStack(c.stack + [(c.rules, c.cfa)]) == InitStack(c.stack) + [(c.rules, InitCfa(c.cfa))];
      case RestoreState => assert InitStack(c.stack[..|c.stack| - 1]) == InitStack(c.stack)[..|c.stack| - 1];
      case _ =>
    }
  }

  lemma StepInit(data: seq<Byte>, pos: nat, cie: Cie, c: Context)
    requires StepAt(data, pos, cie, c, Standard).Some?
    ensures var s := StepAt(data, pos, cie, c, Standard).value;
            StepAt(data, pos, cie, Init(c), Standard) == Some((Init(s.0), s.1))
    ensures Deviates(data, pos, cie, Init(c)) <==> Deviates(data, pos, cie, c)
  {
    FetchedDefinesCfa(data, pos, cie);
    ExecInit(c, Fetch(data, pos, cie, Standard).value.instruction);
    FetchRelates(data, pos, cie);
  }

  /** A run that the standard gives a meaning to is the same with the program's initial CFA, up to that CFA. */
  lemma {:induction false} RunInit(data: seq<Byte>, pos: nat, cie: Cie, c: Context)
    requires RunAll(data, pos, cie, c, Standard).Some?
    ensures RunAll(data, pos, cie, Init(c), Standard) == Some(Init(RunAll(data, pos, cie, c, Standard).value))
    ensures NeverDeviates(data, pos, cie, c) ==> NeverDeviates(data, pos, cie, Init(c))
    decreases |data| - pos
  {
    if pos < |data| {
      StepInit(data, pos, cie, c);
      var s := StepAt(data, pos, cie, c, Standard).value;
      RunInit(data, s.1, cie, s.0);
    }
  }

  lemma {:induction false} TableInit(data: seq<Byte>, pos: nat, cie: Cie, c: Context, pc: nat)
    requires Table(data, pos, cie, c, Standard).Some?
    ensures Table(data, pos, cie, Init(c), Standard) == Some(InitRows(Table(data, pos, cie, c, Standard).value))
    ensures NeverDeviatesTo(data, pos, cie, c, pc) ==> NeverDeviatesTo(data, pos, cie, Init(c), pc)
    decreases |data| - pos
  {
    if pos < |data| {
      StepInit(data, pos, cie, c);
      var s := StepAt(data, pos, cie, c, Standard).value;
      TableInit(data, s.1, cie, s.0, pc);
      var rest := Table(data, s.1, cie, s.0, Standard).value;
      InitRowsCons(c, rest);
    } else {
      assert InitRows([RowOf(c)]) == [RowOf(Init(c))];
    }
  }

  lemma InitRowsCons(c: Context, rest: seq<Row>)
    ensures InitRows([RowOf(c)] + rest) == [RowOf(Init(c))] + InitRows(rest)
  {
  }

  /**
    Step 2 of section 6.4.3: the first row of the table starts at the function's
    first location with the rules of the initial instructions, to which restored
    registers go back.
   */
  function InitialRow(c: Context, initial: nat): Context {
    Context(initial, c.cfa, c.rules, c.rules, c.stack)
  }

  /**
    The whole lookup: where the standard's CIE and FDE programs run through and
    never move backwards, and nothing deviates up to pc, the rules the program
    applies at pc are those of the standard's table in its last row at or below pc.  A CFA
    that the standard leaves undefined there is register 0 with offset 0.
   */
  lemma UnwindMatchesStandardTable(cieProgram: seq<Byte>, fdeProgram: seq<Byte>, cie: Cie, initial: nat, pc: nat)
    returns (k: int)
    requires initial <= pc
    requires NeverDeviates(cieProgram, 0, cie, StandardStart)
    requires RunAll(cieProgram, 0, cie, StandardStart, Standard).Some?
    requires var c := InitialRow(RunAll(cieProgram, 0, cie, StandardStart, Standard).value, initial);
             && NeverDeviatesTo(fdeProgram, 0, cie, c, pc)
             && Table(fdeProgram, 0, cie, c, Standard).Some?
             && NonDecreasing(Table(fdeProgram, 0, cie, c, Standard).value)
    ensures var c := InitialRow(RunAll(cieProgram, 0, cie, StandardStart, Standard).value, initial);
            var rows := Table(fdeProgram, 0, cie, c, Standard).value;
            var r := RulesAt(cieProgram, fdeProgram, cie, initial, pc, Code);
            && r.Some? && LastAtOrBelow(rows, pc, k)
            && r.value.rules == rows[k].rules && r.value.cfa == InitCfa(rows[k].cfa)
  {
    assert Init(StandardStart) == StartOfCie;
    RunInit(cieProgram, 0, cie, StandardStart);
    SameRowsWhenNeverDeviating(cieProgram, 0, cie, StartOfCie, pc);
    var c0 := RunAll(cieProgram, 0, cie, StandardStart, Standard).value;
    var c := InitialRow(c0, initial);
    assert StartOfFde(Init(c0), initial) == Init(c);
    TableInit(fdeProgram, 0, cie, c, pc);
    SameEarlyStop(fdeProgram, 0, cie, Init(c), pc);
    k := EarlyStopIsTableLookup(fdeProgram, cie, Init(c), pc, Standard);
  }
}
