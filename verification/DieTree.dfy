/**
  Debugging information entries of one compile unit: cursor::skip_form,
  parse_die and the child iterator, over the preorder serialisation of section
  2.3 of the DWARF 4 standard.  Positions are offsets into the unit's bytes.
 */
module DieTree {
  import opened Options
  import opened Memory
  import opened Leb128
  import W = TreeWalk
  import opened TreeLayout
  import opened EntryReader

  /** How the extent of a form's value is found. */
  datatype Layout =
    | Fixed(size: nat)
    | Counted(width: nat)   // a block whose length field has this many bytes
    | Leb
    | LebCounted
    | Text
    | Unknown

  const DW_FORM_udata: nat := 0x0f
  const DW_FORM_ref_addr: nat := 0x10
  const DW_FORM_ref8: nat := 0x14
  const DW_FORM_ref_udata: nat := 0x15
  const DW_FORM_indirect: nat := 0x16
  const DW_FORM_ref_sig8: nat := 0x20

  /**
    The forms of section 7.5.4 of the DWARF 4 standard, class by class, in the
    32-bit format with 8-byte addresses.
   */
  function StandardLayout(form: nat): Layout {
    match form
    // address
    case 0x01 => Fixed(8)
    // block
    case 0x0a => Counted(1)
    case 0x03 => Counted(2)
    case 0x04 => Counted(4)
    case 0x09 => LebCounted
    // constant
    case 0x0b => Fixed(1)
    case 0x05 => Fixed(2)
    case 0x06 => Fixed(4)
    case 0x07 => Fixed(8)
    case 0x0d => Leb
    case 0x0f => Leb
    // exprloc
    case 0x18 => LebCounted
    // flag
    case 0x0c => Fixed(1)
    case 0x19 => Fixed(0)
    // lineptr, loclistptr, macptr, rangelistptr
    case 0x17 => Fixed(4)
    // reference
    case 0x11 => Fixed(1)
    case 0x12 => Fixed(2)
    case 0x13 => Fixed(4)
    case 0x14 => Fixed(8)
    case 0x15 => Leb
    case 0x10 => Fixed(4)
    case 0x20 => Fixed(8)
    // string
    case 0x08 => Text
    case 0x0e => Fixed(4)
    case _ => Unknown
  }

  /** The cases of skip_form's switch, other than DW_FORM_indirect. */
  function LayoutOf(form: nat): Layout {
    match form
    case 0x19 => Fixed(0)
    case 0x0b | 0x11 | 0x0c => Fixed(1)
    case 0x05 | 0x12 => Fixed(2)
    case 0x06 | 0x13 | 0x10 | 0x17 | 0x0e => Fixed(4)
    case 0x07 | 0x01 => Fixed(8)
    case 0x0d | 0x0f | 0x15 => Leb
    case 0x0a => Counted(1)
    case 0x03 => Counted(2)
    case 0x04 => Counted(4)
    case 0x09 | 0x18 => LebCounted
    case 0x08 => Text
    case _ => Unknown
  }

  function AfterZero(data: seq<Byte>, pos: nat): (end: nat)
    ensures end > pos
    decreases |data| - pos
  {
    if pos >= |data| || data[pos] == 0 then pos + 1 else AfterZero(data, pos + 1)
  }

  /** The cases of skip_form that do not name another form. */
  function SkipLayout(data: seq<Byte>, pos: nat, layout: Layout): Option<nat> {
    match layout
    case Fixed(size) => Some(pos + size)
    case Counted(width) =>
      var n := ReadFixed(data, pos, width);
      if n.None? then None else Some(n.value.1 + n.value.0)
    case Leb =>
      var n := ReadUnsigned(data, pos);
      if n.None? then None else Some(n.value.1)
    case LebCounted =>
      var n := ReadUnsigned(data, pos);
      if n.None? then None else Some(n.value.1 + n.value.0)
    case Text => Some(AfterZero(data, pos))
    case Unknown => None
  }

  /** The real form of a value, after any chain of indirect forms, and where the value starts. */
  function Resolve(read: Reader, size: nat, pos: nat, form: nat): (r: Option<(nat, nat)>)
    decreases size - pos
  {
    if form != DW_FORM_indirect then Some((form, pos)) else
    var n := read(pos);
    if n.None? || !(pos < n.value.1 <= size) then None else Resolve(read, size, n.value.1, n.value.0)
  }

  /** Reads a LEB128 number: its value and the position after it. */
  type Reader = nat -> Option<(nat, nat)>

  function NumberReader(data: seq<Byte>): Reader {
    (pos: nat) => ReadUnsigned(data, pos)
  }

  /** cursor::skip_form; None for an unknown form or a length read past the end. */
  function SkipForm(data: seq<Byte>, pos: nat, form: nat): Option<nat> {
    var r := Resolve(NumberReader(data), |data|, pos, form);
    if r.None? then None else SkipLayout(data, r.value.1, LayoutOf(r.value.0))
  }

  /** The bytes are a LEB128 number of 64 bits. */
  predicate IsNumber(bytes: seq<Byte>) {
    IsEncoding(bytes) && |bytes| <= MAX_BYTES && UnsignedValue(bytes) < MODULUS
  }

  /** The bytes are one value with this layout. */
  ghost predicate HasLayout(layout: Layout, bytes: seq<Byte>) {
    match layout
    case Fixed(size) => |bytes| == size
    case Counted(width) => |bytes| >= width && |bytes| == width + LittleEndian(bytes[..width])
    case Leb => IsEncoding(bytes) && |bytes| <= MAX_BYTES
    case LebCounted => exists k: nat :: k <= |bytes| && IsNumber(bytes[..k]) && |bytes| == k + UnsignedValue(bytes[..k])
    case Text => bytes != [] && bytes[|bytes| - 1] == 0 && forall i | 0 <= i < |bytes| - 1 :: bytes[i] != 0
    case Unknown => false
  }

  /** A value: of some form, or the number of another form followed by a value of that one. */
  datatype Value = Direct(form: nat, body: seq<Byte>) | Indirect(head: seq<Byte>, rest: Value)

  function BytesOf(v: Value): seq<Byte> {
    match v
    case Direct(_, body) => body
    case Indirect(head, rest) => head + BytesOf(rest)
  }

  ghost predicate WellFormed(v: Value, form: nat) {
    match v
    case Direct(f, body) => f == form && form != DW_FORM_indirect && HasLayout(StandardLayout(form), body)
    case Indirect(head, rest) => form == DW_FORM_indirect && IsNumber(head) && WellFormed(rest, UnsignedValue(head))
  }

  /** The value at the end of the chain. */
  function Last(v: Value): (r: Value)
    ensures r.Direct?
  {
    if v.Direct? then v else Last(v.rest)
  }

  /** The bytes are the value v of the form. */
  ghost predicate Encodes(form: nat, bytes: seq<Byte>, v: Value) {
    WellFormed(v, form) && BytesOf(v) == bytes
  }

  ghost predicate IsValue(form: nat, bytes: seq<Byte>) {
    exists v :: Encodes(form, bytes, v)
  }

  predicate SkipRefuses(form: nat) {
    form == DW_FORM_ref8 || form == DW_FORM_ref_sig8
  }

  /** The value's own form, after indirection, is one that skip_form does not know. */
  ghost predicate Unskippable(form: nat, bytes: seq<Byte>) {
    exists v :: Encodes(form, bytes, v) && SkipRefuses(Last(v).form)
  }

  /** skip_form knows the standard's forms but two. */
  lemma LayoutsAgree(form: nat)
    requires StandardLayout(form) != Unknown
    ensures LayoutOf(form) == if form == DW_FORM_ref8 || form == DW_FORM_ref_sig8 then Unknown else StandardLayout(form)
  {
  }

  /** Where the value at the end of the chain starts. */
  function Lead(v: Value): nat {
    if v.Direct? then 0 else |v.head| + Lead(v.rest)
  }

  lemma {:induction false} LastStands(data: seq<Byte>, p: nat, v: Value)
    requires At(data, p, BytesOf(v))
    ensures At(data, p + Lead(v), Last(v).body) && Lead(v) + |Last(v).body| == |BytesOf(v)|
    decreases v
  {
    if v.Indirect? {
      AtSplit(data, p, v.head, BytesOf(v.rest));
      LastStands(data, p + |v.head|, v.rest);
    }
  }

  /** The numbers of the chain are read one after the other. */
  predicate ChainReads(read: Reader, size: nat, p: nat, v: Value)
    decreases v
  {
    v.Indirect? ==>
      var q := p + |v.head|;
      p < q <= size && read(p) == Some((UnsignedValue(v.head), q)) && ChainReads(read, size, q, v.rest)
  }

  lemma {:induction false} ChainStands(data: seq<Byte>, p: nat, v: Value, form: nat)
    requires At(data, p, BytesOf(v)) && WellFormed(v, form)
    ensures ChainReads(NumberReader(data), |data|, p, v)
    decreases v
  {
    if v.Indirect? {
      AtSplit(data, p, v.head, BytesOf(v.rest));
      UnsignedReadsBack(UnsignedValue(v.head), data, p, v.head);
      ChainStands(data, p + |v.head|, v.rest, UnsignedValue(v.head));
    }
  }

  lemma {:induction false} ChainResolves(read: Reader, size: nat, p: nat, v: Value, form: nat)
    requires ChainReads(read, size, p, v) && WellFormed(v, form)
    ensures Resolve(read, size, p, form) == Some((Last(v).form, p + Lead(v)))
    decreases v
  {
    if v.Indirect? {
      ChainResolves(read, size, p + |v.head|, v.rest, UnsignedValue(v.head));
    }
  }

  /** The chain of forms is followed to the value at its end. */
  lemma ResolvesTo(data: seq<Byte>, p: nat, v: Value, form: nat)
    requires At(data, p, BytesOf(v)) && WellFormed(v, form)
    ensures Resolve(NumberReader(data), |data|, p, form) == Some((Last(v).form, p + Lead(v)))
  {
    ChainStands(data, p, v, form);
    ChainResolves(NumberReader(data), |data|, p, v, form);
  }

  lemma {:induction false} LastIsWellFormed(v: Value, form: nat)
    requires WellFormed(v, form)
    ensures var w := Last(v); w.form != DW_FORM_indirect && HasLayout(StandardLayout(w.form), w.body)
  {
    if v.Indirect? {
      LastIsWellFormed(v.rest, UnsignedValue(v.head));
    }
  }

  /** The bytes of a value are those of one value only, as far as its form goes. */
  lemma OneForm(form: nat, bytes: seq<Byte>, v: Value, v': Value)
    requires Encodes(form, bytes, v) && Encodes(form, bytes, v')
    ensures Last(v).form == Last(v').form
  {
    assert bytes[0..0 + |bytes|] == bytes;
    ResolvesTo(bytes, 0, v, form);
    ResolvesTo(bytes, 0, v', form);
  }

  lemma {:induction false} AfterZeroAt(data: seq<Byte>, pos: nat, end: nat)
    requires pos < end <= |data| && data[end - 1] == 0
    requires forall i | pos <= i < end - 1 :: data[i] != 0
    ensures AfterZero(data, pos) == end
    decreases end - pos
  {
    if pos + 1 < end {
      AfterZeroAt(data, pos + 1, end);
    }
  }

  lemma TextAt(data: seq<Byte>, p: nat, bytes: seq<Byte>)
    requires At(data, p, bytes) && HasLayout(Text, bytes)
    ensures AfterZero(data, p) == p + |bytes|
  {
    assert forall i | p <= i < p + |bytes| :: data[i] == bytes[i - p];
    AfterZeroAt(data, p, p + |bytes|);
  }

  /** A fixed-width number is read where it stands. */
  lemma FixedReadAt(data: seq<Byte>, p: nat, bytes: seq<Byte>, n: nat)
    requires At(data, p, bytes) && n <= |bytes|
    ensures ReadFixed(data, p, n) == Some((LittleEndian(bytes[..n]), p + n))
  {
    AtPart(data, p, bytes, 0, n);
    assert bytes[0..n] == bytes[..n];
    FixedIsLittleEndian(data, p, n);
  }

  lemma SkipsLayout(data: seq<Byte>, p: nat, bytes: seq<Byte>, layout: Layout)
    requires At(data, p, bytes) && HasLayout(layout, bytes)
    ensures SkipLayout(data, p, layout) == Some(p + |bytes|)
  {
    match layout
    case Fixed(_) =>
    case Counted(width) => FixedReadAt(data, p, bytes, width);
    case Leb => FindsEncoding(data, p, bytes);
    case LebCounted =>
      var k: nat :| k <= |bytes| && IsNumber(bytes[..k]) && |bytes| == k + UnsignedValue(bytes[..k]);
      AtPart(data, p, bytes, 0, k);
      assert bytes[0..k] == bytes[..k];
      UnsignedReadsBack(UnsignedValue(bytes[..k]), data, p, bytes[..k]);
    case Text => TextAt(data, p, bytes);
  }

  /**
    skip_form passes over exactly one value of the form, wherever it stands; it
    refuses a value if and only if its form, after indirection, is DW_FORM_ref8 or
    DW_FORM_ref_sig8.
   */
  lemma SkipsExactly(data: seq<Byte>, p: nat, bytes: seq<Byte>, form: nat)
    requires At(data, p, bytes) && IsValue(form, bytes)
    ensures SkipForm(data, p, form) == if Unskippable(form, bytes) then None else Some(p + |bytes|)
  {
    var v :| Encodes(form, bytes, v);
    var w := Last(v);
    ResolvesTo(data, p, v, form);
    LastStands(data, p, v);
    LastIsWellFormed(v, form);
    LayoutsAgree(w.form);
    if Unskippable(form, bytes) {
      var v' :| Encodes(form, bytes, v') && SkipRefuses(Last(v').form);
      OneForm(form, bytes, v, v');
    } else {
      assert !SkipRefuses(w.form);
      SkipsLayout(data, p + Lead(v), w.body, LayoutOf(w.form));
    }
  }

  /**
    attr::as_reference, as a position in the unit, which starts at `base` in
    .debug_info.  DW_FORM_ref_addr counts from the start of the section; what lies
    before the unit is given a position past it.
   */
  function AsReference(data: seq<Byte>, base: nat, loc: nat, form: nat): Option<nat> {
    var width := ReferenceWidth(form);
    if width.Some? then FromBase(form, base, First(ReadFixed(data, loc, width.value)))
    else if form == DW_FORM_udata then First(ReadUnsigned(data, loc))
    else None
  }

  function FromBase(form: nat, base: nat, offset: Option<nat>): Option<nat> {
    if form != DW_FORM_ref_addr || offset.None? then offset
    else Some(if offset.value >= base then offset.value - base else MODULUS + offset.value)
  }

  /** DW_FORM_ref1 to DW_FORM_ref8, and DW_FORM_ref_addr. */
  function ReferenceWidth(form: nat): Option<nat> {
    match form
    case 0x11 => Some(1)
    case 0x12 => Some(2)
    case 0x13 => Some(4)
    case 0x14 => Some(8)
    case 0x10 => Some(4)
    case _ => None
  }

  function First(o: Option<(nat, nat)>): Option<nat> {
    if o.None? then None else Some(o.value.0)
  }

  /** The cursor over these bytes. */
  function CursorOf(data: seq<Byte>, base: nat): Cursor {
    Cursor((pos: nat) => ReadUnsigned(data, pos),
           (pos: nat, form: nat) => SkipForm(data, pos, form),
           (loc: nat, form: nat) => AsReference(data, base, loc, form))
  }

  /** parse_die. */
  method ParseDie(data: seq<Byte>, ghost base: nat, table: Abbrevs, pos: nat) returns (r: Option<Die>)
    ensures r == DieAt(CursorOf(data, base), table, pos)
  {
    var code := Uleb128(data, pos);
    if code.None? {
      return None;
    }
    if code.value.0 == 0 {
      return Some(Null(code.value.1));
    }
    if code.value.0 !in table {
      return None;
    }
    var abbrev := table[code.value.0];
    var locs: seq<nat>, cur: nat := [], code.value.1;
    for i := 0 to |abbrev.specs|
      invariant SkipAll(CursorOf(data, base).skip, code.value.1, abbrev.specs[..i]) == Some((locs, cur))
    {
      var next := SkipForm(data, cur, abbrev.specs[i].form);
      OneMoreSpec(CursorOf(data, base).skip, code.value.1, abbrev.specs, i);
      if next.None? {
        SkipAllSplit(CursorOf(data, base).skip, code.value.1, abbrev.specs, i + 1);
        return None;
      }
      locs, cur := locs + [cur], next.value;
    }
    assert abbrev.specs[..|abbrev.specs|] == abbrev.specs;
    return Some(Die(pos, code.value.0, abbrev, cur, locs));
  }

  /** One value of the right form for each attribute. */
  ghost predicate ValuesMatch(attrs: seq<seq<Byte>>, specs: seq<Spec>)
    decreases attrs
  {
    if attrs == [] || specs == [] then attrs == [] && specs == []
    else IsValue(specs[0].form, attrs[0]) && ValuesMatch(attrs[1..], specs[1..])
  }

  /** No value has a form that skip_form refuses. */
  ghost predicate AllSkippable(attrs: seq<seq<Byte>>, specs: seq<Spec>)
    decreases attrs
  {
    attrs == [] || specs == [] || (!Unskippable(specs[0].form, attrs[0]) && AllSkippable(attrs[1..], specs[1..]))
  }

  lemma ValuePasses(data: seq<Byte>, base: nat, bytes: seq<Byte>, form: nat)
    requires IsValue(form, bytes)
    ensures if Unskippable(form, bytes) then Refuses(CursorOf(data, base).skip, data, form, bytes)
            else PassesOver(CursorOf(data, base).skip, data, form, bytes)
  {
    forall q: nat | At(data, q, bytes)
      ensures SkipForm(data, q, form) == if Unskippable(form, bytes) then None else Some(q + |bytes|)
    {
      SkipsExactly(data, q, bytes, form);
    }
  }

  lemma {:induction false} AttributesPass(data: seq<Byte>, base: nat, attrs: seq<seq<Byte>>, specs: seq<Spec>)
    requires ValuesMatch(attrs, specs)
    ensures if AllSkippable(attrs, specs) then AllPass(CursorOf(data, base).skip, data, attrs, specs)
            else Blocked(CursorOf(data, base).skip, data, attrs, specs)
    decreases attrs
  {
    if attrs != [] {
      ValuePasses(data, base, attrs[0], specs[0].form);
      AttributesPass(data, base, attrs[1..], specs[1..]);
    }
  }

  predicate IsCode(head: seq<Byte>, code: nat) {
    0 < code < MODULUS && IsEncoding(head) && |head| <= MAX_BYTES && UnsignedValue(head) == code
  }

  lemma CodeReads(data: seq<Byte>, base: nat, head: seq<Byte>, code: nat)
    requires IsCode(head, code)
    ensures NumberReads(CursorOf(data, base), data, head, code)
  {
    forall q: nat | At(data, q, head) ensures ReadUnsigned(data, q) == Some((code, q + |head|)) {
      UnsignedReadsBack(code, data, q, head);
    }
  }

  lemma NullReads(data: seq<Byte>, base: nat)
    ensures NumberReads(CursorOf(data, base), data, [0], 0)
  {
    var nullEntry: seq<Byte>, zero: nat := [0], 0;
    forall q: nat | At(data, q, nullEntry) ensures ReadUnsigned(data, q) == Some((zero, q + |nullEntry|)) {
      UnsignedReadsBack(zero, data, q, nullEntry);
    }
  }

  /**
    The position that a whole value of this form refers to: the number in the
    bytes of DW_FORM_ref1 to DW_FORM_ref8, from the start of the unit; that of
    DW_FORM_ref_addr, from the start of the section; and the LEB128 number of
    DW_FORM_udata, which as_reference takes for a reference.
   */
  function ReferenceIn(form: nat, base: nat, bytes: seq<Byte>): Option<nat> {
    match form
    case 0x11 | 0x12 | 0x13 | 0x14 => Some(LittleEndian(bytes))
    case 0x10 =>
      var offset := LittleEndian(bytes);
      Some(if offset >= base then offset - base else MODULUS + offset)
    case 0x0f => Some(Low64(UnsignedValue(bytes)))
    case _ => None
  }

  /** as_reference reads the value in the bytes that the form's layout gives it, wherever they stand. */
  lemma ReferenceAt(data: seq<Byte>, base: nat, loc: nat, bytes: seq<Byte>, form: nat)
    requires At(data, loc, bytes) && IsValue(form, bytes)
    ensures AsReference(data, base, loc, form) == ReferenceIn(form, base, bytes)
  {
    assert bytes[..|bytes|] == bytes;
    var v :| Encodes(form, bytes, v);
    if ReferenceWidth(form).Some? {
      ReferenceWidths(form);
      FixedReadAt(data, loc, bytes, |bytes|);
    } else if form == DW_FORM_udata {
      FindsEncoding(data, loc, bytes);
    }
  }

  /** as_reference reads as many bytes as the form has. */
  lemma ReferenceWidths(form: nat)
    requires ReferenceWidth(form).Some?
    ensures StandardLayout(form) == Fixed(ReferenceWidth(form).value)
  {
  }

  /** The sibling attribute among the values, evaluated. */
  function SiblingIn(attrs: seq<seq<Byte>>, base: nat, specs: seq<Spec>): W.Sibling
    requires |attrs| == |specs|
  {
    var k := FindSpec(specs, DW_AT_sibling);
    if k.None? then W.Absent else
    var ref := ReferenceIn(specs[k.value].form, base, attrs[k.value]);
    if ref.None? then W.Refused else W.Position(ref.value)
  }

  lemma {:induction false} ValueAt(attrs: seq<seq<Byte>>, specs: seq<Spec>, k: nat)
    requires ValuesMatch(attrs, specs) && k < |specs| == |attrs|
    ensures IsValue(specs[k].form, attrs[k])
    decreases attrs
  {
    if k > 0 {
      ValueAt(attrs[1..], specs[1..], k - 1);
    }
  }

  /** A whole value is refused for its form alone, so it is refused wherever it stands. */
  lemma RefusedForItsForm(data: seq<Byte>, base: nat, loc: nat, bytes: seq<Byte>, form: nat)
    requires IsValue(form, bytes) && ReferenceIn(form, base, bytes).None?
    ensures AsReference(data, base, loc, form).None?
  {
  }

  lemma SiblingIsRead(data: seq<Byte>, base: nat, attrs: seq<seq<Byte>>, specs: seq<Spec>)
    requires |attrs| == |specs| && ValuesMatch(attrs, specs)
    ensures SiblingReads(CursorOf(data, base), data, attrs, specs, SiblingIn(attrs, base, specs))
  {
    var k := FindSpec(specs, DW_AT_sibling);
    if k.Some? {
      var bytes, form := attrs[k.value], specs[k.value].form;
      ValueAt(attrs, specs, k.value);
      SiblingValueIsRead(data, base, bytes, form);
    }
  }

  lemma SiblingValueIsRead(data: seq<Byte>, base: nat, bytes: seq<Byte>, form: nat)
    requires IsValue(form, bytes)
    ensures var ref := ReferenceIn(form, base, bytes);
            if ref.None? then ReferenceRefused(CursorOf(data, base), data, bytes, form)
            else ReferenceReads(CursorOf(data, base), data, bytes, form, ref.value)
  {
    forall loc: nat | At(data, loc, bytes)
      ensures AsReference(data, base, loc, form) == ReferenceIn(form, base, bytes)
    {
      ReferenceAt(data, base, loc, bytes, form);
    }
  }

  /** What the entries of a compile unit depend on: its abbreviations and where it starts in .debug_info. */
  datatype Unit = Unit(table: Abbrevs, base: nat)

  /** The entry's bytes are those its abbreviation asks for. */
  ghost predicate MatchesTable(n: Node, u: Unit) {
    && n.code in u.table && n.hasChildren == u.table[n.code].hasChildren
    && IsCode(n.head, n.code) && |n.attrs| == |u.table[n.code].specs| && ValuesMatch(n.attrs, u.table[n.code].specs)
    && n.sibling == SiblingIn(n.attrs, u.base, u.table[n.code].specs)
    && n.readable == AllSkippable(n.attrs, u.table[n.code].specs)
  }

  ghost predicate TreeMatches(n: Node, u: Unit) {
    MatchesTable(n, u) && forall c | c in n.children :: TreeMatches(c, u)
  }

  lemma EntryReads(data: seq<Byte>, u: Unit, n: Node)
    requires MatchesTable(n, u)
    ensures Reads(CursorOf(data, u.base), data, u.table, n)
  {
    CodeReads(data, u.base, n.head, n.code);
    AttributesPass(data, u.base, n.attrs, u.table[n.code].specs);
    SiblingIsRead(data, u.base, n.attrs, u.table[n.code].specs);
  }

  lemma {:induction false} MatchingTreeReads(data: seq<Byte>, u: Unit, n: Node)
    requires TreeMatches(n, u)
    ensures TreeReads(CursorOf(data, u.base), data, u.table, n)
  {
    EntryReads(data, u, n);
    forall c | c in n.children ensures TreeReads(CursorOf(data, u.base), data, u.table, c) {
      MatchingTreeReads(data, u, c);
    }
  }

  /** The bytes of a tree that matches the table are found at the places they were given. */
  lemma SerialisedUnitFits(data: seq<Byte>, u: Unit, n: Node, p: nat)
    ensures TreeMatches(n, u) && At(data, p, Serialise(n)) && Coherent(n, p) ==>
              W.Fits(UnitParser(CursorOf(data, u.base), u.table), Place(n, p))
  {
    if TreeMatches(n, u) && At(data, p, Serialise(n)) && Coherent(n, p) {
      MatchingTreeReads(data, u, n);
      NullReads(data, u.base);
      UnitFits(CursorOf(data, u.base), data, u.table, n, p);
    }
  }

  /**
    The children of any entry of a serialised tree, read back from the bytes: the
    entries at the direct children's positions, in order, and nothing else, if
    and only if the iterator meets no sibling attribute that it cannot read and no
    entry, the first one included, with an attribute that cannot be skipped.
   */
  method ChildrenOf(data: seq<Byte>, u: Unit, p: nat, ghost n: Node) returns (r: Option<seq<W.Entry>>)
    requires TreeMatches(n, u) && At(data, p, Serialise(n)) && Coherent(n, p)
    ensures r.Some? <==> n.readable && AllPassable(n.children)
    ensures r.Some? ==> Entries(PlaceAll(n.children, p + |Own(n)|), r.value)
    ensures r.Some? ==> |r.value| == |n.children| && forall k | 0 <= k < |r.value| :: SameCode(r.value[k], n.children[k])
  {
    AllPlacedPassable(n.children, p + |Own(n)|);
    var parse := OpenUnit(data, u, p, n);
    r := W.ChildrenAt(parse, p, Place(n, p));
  }

  /** parse_die over the unit's bytes, which finds the tree where it stands. */
  method OpenUnit(data: seq<Byte>, u: Unit, ghost p: nat, ghost n: Node) returns (parse: W.Parser)
    ensures TreeMatches(n, u) && At(data, p, Serialise(n)) && Coherent(n, p) ==> W.Fits(parse, Place(n, p))
  {
    parse := UnitParser(CursorOf(data, u.base), u.table);
    SerialisedUnitFits(data, u, n, p);
  }

  /** These are the entries of the placed trees. */
  ghost predicate Entries(ts: seq<W.Placed>, es: seq<W.Entry>) {
    |es| == |ts| && forall k | 0 <= k < |es| :: es[k] == ts[k].entry
  }

  predicate SameCode(e: W.Entry, n: Node) {
    e.Entry? && e.code == n.code
  }

  /**
    What ChildrenOf needs of a tree holds of its children at the positions it
    reports for them, and so of every entry below the root.
   */
  lemma ChildIsSerialised(data: seq<Byte>, u: Unit, n: Node, p: nat, k: nat)
    requires TreeMatches(n, u) && At(data, p, Serialise(n)) && Coherent(n, p) && k < |n.children|
    ensures var child, q := n.children[k], PlaceAll(n.children, p + |Own(n)|)[k].entry.pos;
            TreeMatches(child, u) && At(data, q, Serialise(child)) && Coherent(child, q)
  {
    SubtreeStands(data, n, p, k);
    assert n.children[k] in n.children;
  }

  // ---- trees on which the iteration fails ----

  const DW_AT_signature: nat := 0x69

  /** A root, and an abbreviation with one attribute. */
  function TwoAbbrevs(attr: nat, form: nat): Unit {
    Unit(map[1 := Abbrev(0x11, true, []), 2 := Abbrev(0x2e, true, [Spec(attr, form)])], 0)
  }

  /** A root with one child that has one attribute. */
  function OneChild(value: seq<Byte>, sibling: W.Sibling, readable: bool): Node {
    Node([1], [], 1, true, W.Absent, true, [Node([2], [value], 2, true, sibling, readable, [])])
  }

  lemma SingleByte(b: Byte)
    requires b < 128
    ensures IsEncoding([b]) && UnsignedValue([b]) == b && HasLayout(Leb, [b])
  {
    assert [b][1..] == [] && [b][0..1] == [b] && [b][..1] == [b];
    UnsignedReadsBack(b, [b], 0, [b]);
  }

  lemma DirectValue(form: nat, bytes: seq<Byte>)
    requires form != DW_FORM_indirect && HasLayout(StandardLayout(form), bytes)
    ensures IsValue(form, bytes) && (Unskippable(form, bytes) <==> form == DW_FORM_ref8 || form == DW_FORM_ref_sig8)
  {
    var v := Direct(form, bytes);
    assert Encodes(form, bytes, v);
    if Unskippable(form, bytes) {
      var v' :| Encodes(form, bytes, v') && SkipRefuses(Last(v').form);
      OneForm(form, bytes, v, v');
    }
  }

  lemma OneChildBytes(value: seq<Byte>, s: W.Sibling, readable: bool)
    ensures var n := OneChild(value, s, readable);
            && Own(n) == [1] && Own(n.children[0]) == [2] + value
            && Serialise(n.children[0]) == [2] + value + [0] && SerialiseAll(n.children) == [2] + value + [0]
            && Serialise(n) == [1, 2] + value + [0, 0]
  {
    var n := OneChild(value, s, readable);
    var child := n.children[0];
    assert child.attrs[1..] == [] && Flatten(child.attrs) == value;
    assert SerialiseAll(child.children) == [];
    assert n.children[1..] == [];
  }

  lemma OneChildCoheres(value: seq<Byte>, s: W.Sibling, readable: bool)
    requires s.Position? ==> s.at == 3 + |value|
    ensures Coherent(OneChild(value, s, readable), 0)
    ensures AllPassable(OneChild(value, s, readable).children) <==> readable && s != W.Refused
  {
    var n := OneChild(value, s, readable);
    OneChildBytes(value, s, readable);
    var child := n.children[0];
    assert n.children == [child] && n.children[1..] == [];
    assert Coherent(child, 1);
    assert AllPassable(child.children) && AllPassable(n.children[1..]);
    assert AllPassable(n.children) <==> child.readable && Passable(child);
  }

  lemma OneChildMatches(value: seq<Byte>, s: W.Sibling, readable: bool, attr: nat, form: nat)
    requires IsValue(form, value) && readable == !Unskippable(form, value)
    requires s == if attr != DW_AT_sibling then W.Absent
                  else if ReferenceIn(form, 0, value).None? then W.Refused
                  else W.Position(ReferenceIn(form, 0, value).value)
    ensures TreeMatches(OneChild(value, s, readable), TwoAbbrevs(attr, form))
  {
    var n, u := OneChild(value, s, readable), TwoAbbrevs(attr, form);
    var child, specs := n.children[0], u.table[2].specs;
    SingleByte(1);
    SingleByte(2);
    OneAttribute(value, attr, form);
    assert child.attrs == [value] && specs == [Spec(attr, form)];
    assert MatchesTable(child, u) && MatchesTable(n, u);
  }

  lemma OneAttribute(value: seq<Byte>, attr: nat, form: nat)
    requires IsValue(form, value)
    ensures var attrs, specs := [value], [Spec(attr, form)];
            && ValuesMatch(attrs, specs) && (AllSkippable(attrs, specs) <==> !Unskippable(form, value))
            && SiblingIn(attrs, 0, specs) == (
                 if attr != DW_AT_sibling then W.Absent
                 else if ReferenceIn(form, 0, value).None? then W.Refused
                 else W.Position(ReferenceIn(form, 0, value).value))
  {
    var attrs, specs := [value], [Spec(attr, form)];
    assert attrs[1..] == [] && specs[1..] == [];
    assert FindSpec(specs, DW_AT_sibling) == if attr == DW_AT_sibling then Some(0) else None;
  }

  /**
    as_reference takes DW_FORM_udata for a reference and not DW_FORM_ref_udata: the
    same tree is iterated with its sibling in the one form, and not with its
    sibling in the form that the standard gives references.
   */
  lemma RefUdataSiblingIsRefused()
    ensures var n := OneChild([4], W.Refused, true);
            TreeMatches(n, TwoAbbrevs(DW_AT_sibling, DW_FORM_ref_udata)) && Coherent(n, 0) && !AllPassable(n.children)
    ensures var n := OneChild([4], W.Position(4), true);
            TreeMatches(n, TwoAbbrevs(DW_AT_sibling, DW_FORM_udata)) && Coherent(n, 0) && AllPassable(n.children)
  {
    SingleByte(4);
    DirectValue(DW_FORM_ref_udata, [4]);
    DirectValue(DW_FORM_udata, [4]);
    OneChildMatches([4], W.Refused, true, DW_AT_sibling, DW_FORM_ref_udata);
    OneChildMatches([4], W.Position(4), true, DW_AT_sibling, DW_FORM_udata);
    OneChildCoheres([4], W.Refused, true);
    OneChildCoheres([4], W.Position(4), true);
  }

  /** An entry with DW_AT_signature in DW_FORM_ref_sig8, as a type unit's users have it, ends the iteration. */
  lemma RefSig8IsUnreadable(signature: seq<Byte>)
    requires |signature| == 8
    ensures var n := OneChild(signature, W.Absent, false);
            TreeMatches(n, TwoAbbrevs(DW_AT_signature, DW_FORM_ref_sig8)) && Coherent(n, 0) && !AllPassable(n.children)
  {
    DirectValue(DW_FORM_ref_sig8, signature);
    OneChildMatches(signature, W.Absent, false, DW_AT_signature, DW_FORM_ref_sig8);
    OneChildCoheres(signature, W.Absent, false);
  }

  /** Of the references that as_reference reads, skip_form refuses exactly those of DW_FORM_ref8. */
  lemma UnskippableReferenceIff(data: seq<Byte>, base: nat, loc: nat, form: nat)
    requires AsReference(data, base, loc, form).Some?
    ensures SkipForm(data, loc, form).None? <==> form == DW_FORM_ref8
  {
  }

  /** Eight bytes that are read as a reference and cannot be skipped. */
  lemma Ref8IsUnskippable(data: seq<Byte>)
    requires |data| == 8
    ensures AsReference(data, 0, 0, DW_FORM_ref8).Some? && SkipForm(data, 0, DW_FORM_ref8).None?
  {
  }
}
