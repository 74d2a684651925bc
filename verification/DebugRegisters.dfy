/**
  DR7 as an allocator of four slots.  Slot i owns two enable bits at 2*i, two
  mode bits at 16 + 4*i and two size bits at 18 + 4*i.  A 64-bit word is the
  sequence of its bits, least significant first.
 */
module DebugRegisters {
  import opened Options

  type Word = w: seq<bool> | |w| == 64 witness seq(64, b => false)

  datatype Mode = Write | ReadWrite | Execute

  predicate IsSlot(i: int) {
    0 <= i < 4
  }

  /** A two-bit field. */
  type Field = f: int | 0 <= f < 4

  function EncodeMode(mode: Mode): Field {
    match mode
    case Write => 1
    case ReadWrite => 3
    case Execute => 0
  }

  predicate LegalSize(size: nat) {
    size == 1 || size == 2 || size == 4 || size == 8
  }

  function EncodeSize(size: nat): Field
    requires LegalSize(size)
  {
    if size == 1 then 0 else if size == 2 then 1 else if size == 4 then 3 else 2
  }

  // ---- what the processor makes of the fields ----

  datatype Access = Fetch | Load | Store

  /** The accesses that a R/W field watches (section 17.2.4 of volume 3 of the Intel manual); I/O breakpoints are not in use. */
  function WatchedAccesses(field: Field): set<Access> {
    match field
    case 0 => {Fetch}
    case 1 => {Store}
    case 3 => {Load, Store}
    case _ => {}
  }

  /** The number of bytes that a LEN field watches. */
  function WatchedBytes(field: Field): nat {
    match field
    case 0 => 1
    case 1 => 2
    case 2 => 8
    case _ => 4
  }

  /** The accesses that a stop point of this mode is for. */
  function AccessesOf(mode: Mode): set<Access> {
    match mode
    case Write => {Store}
    case ReadWrite => {Load, Store}
    case Execute => {Fetch}
  }

  /** Mode and size are encoded as the processor decodes them. */
  lemma FieldsDecode(mode: Mode, size: nat)
    ensures WatchedAccesses(EncodeMode(mode)) == AccessesOf(mode)
    ensures LegalSize(size) ==> WatchedBytes(EncodeSize(size)) == size
  {
  }

  /** Bit b of 0b11 << 2*i | 0b1111 << 4*i + 16. */
  predicate InSlot(i: int, b: int) {
    b == 2 * i || b == 2 * i + 1 || 16 + 4 * i <= b < 20 + 4 * i
  }

  /**
    The complement of the clear mask.  The program computes the mask in a 32-bit
    int, so bits 32 to 63 repeat bit 31 of the complement: the mask of slot 3
    has bit 31 set and its complement drops the upper half of the register.
   */
  function KeepMask(i: int): Word
    requires IsSlot(i)
  {
    seq(64, b => if b < 32 then !InSlot(i, b) else !InSlot(i, 31))
  }

  function And(a: Word, b: Word): Word {
    seq(64, k requires 0 <= k < 64 => a[k] && b[k])
  }

  function Or(a: Word, b: Word): Word {
    seq(64, k requires 0 <= k < 64 => a[k] || b[k])
  }

  /** The enable bit L<i> with the mode and size fields moved into place. */
  function SlotBits(i: int, mode: Field, size: Field): Word
    requires IsSlot(i)
  {
    seq(64, b =>
      if b == 2 * i then true
      else if b == 16 + 4 * i then mode % 2 == 1
      else if b == 17 + 4 * i then mode / 2 == 1
      else if b == 18 + 4 * i then size % 2 == 1
      else if b == 19 + 4 * i then size / 2 == 1
      else false)
  }

  /** DR7 after slot i is claimed. */
  function Claim(control: Word, i: int, mode: Field, size: Field): Word
    requires IsSlot(i)
  {
    Or(And(control, KeepMask(i)), SlotBits(i, mode, size))
  }

  /** DR7 after slot i is cleared. */
  function Release(control: Word, i: int): Word
    requires IsSlot(i)
  {
    And(control, KeepMask(i))
  }

  predicate SlotOn(control: Word, i: int)
    requires IsSlot(i)
  {
    control[2 * i] || control[2 * i + 1]
  }

  function ModeField(control: Word, i: int): Field
    requires IsSlot(i)
  {
    (if control[16 + 4 * i] then 1 else 0) + (if control[17 + 4 * i] then 2 else 0)
  }

  function SizeField(control: Word, i: int): Field
    requires IsSlot(i)
  {
    (if control[18 + 4 * i] then 1 else 0) + (if control[19 + 4 * i] then 2 else 0)
  }

  /** Slot j reads the same in both words. */
  ghost predicate SameSlot(c: Word, d: Word, j: int)
    requires IsSlot(j)
  {
    SlotOn(c, j) == SlotOn(d, j) && ModeField(c, j) == ModeField(d, j) && SizeField(c, j) == SizeField(d, j)
  }

  /** Claiming a slot writes its mode and size and leaves the others alone. */
  lemma ClaimFrames(control: Word, i: int, mode: Field, size: Field)
    requires IsSlot(i)
    ensures SlotOn(Claim(control, i, mode, size), i)
    ensures ModeField(Claim(control, i, mode, size), i) == mode
    ensures SizeField(Claim(control, i, mode, size), i) == size
    ensures forall j | IsSlot(j) && j != i :: SameSlot(Claim(control, i, mode, size), control, j)
  {
    ClaimOwn(control, i, mode, size);
    forall j | IsSlot(j) && j != i ensures SameSlot(Claim(control, i, mode, size), control, j) {
      ClaimOther(control, i, mode, size, j);
    }
  }

  lemma ClaimOwn(control: Word, i: int, mode: Field, size: Field)
    requires IsSlot(i)
    ensures var c := Claim(control, i, mode, size); SlotOn(c, i) && ModeField(c, i) == mode && SizeField(c, i) == size
  {
  }

  lemma ClaimOther(control: Word, i: int, mode: Field, size: Field, j: int)
    requires IsSlot(i) && IsSlot(j) && j != i
    ensures SameSlot(Claim(control, i, mode, size), control, j)
  {
  }

  /** Clearing a slot switches it off and leaves the others alone. */
  lemma ReleaseFrames(control: Word, i: int)
    requires IsSlot(i)
    ensures !SlotOn(Release(control, i), i)
    ensures forall j | IsSlot(j) && j != i :: SameSlot(Release(control, i), control, j)
  {
  }

  predicate UpperHalfZero(control: Word) {
    forall b | 32 <= b < 64 :: !control[b]
  }

  /**
    Bits outside the slot survive a claim or a release of slot i exactly when i
    is not 3 or the reserved upper half was zero already.
   */
  lemma OutsideSurvivesIff(control: Word, i: int, mode: Field, size: Field)
    requires IsSlot(i)
    ensures (forall b | 0 <= b < 64 && !InSlot(i, b) :: Claim(control, i, mode, size)[b] == control[b])
            <==> i != 3 || UpperHalfZero(control)
    ensures (forall b | 0 <= b < 64 && !InSlot(i, b) :: Release(control, i)[b] == control[b])
            <==> i != 3 || UpperHalfZero(control)
  {
    if i == 3 && !UpperHalfZero(control) {
      var b :| 32 <= b < 64 && control[b];
      assert !Claim(control, i, mode, size)[b] && !Release(control, i)[b];
    }
  }

  /** Clearing slot 3 while a bit of the upper half is set clears that bit, clearing another slot does not. */
  lemma UpperHalfIsDropped(control: Word, i: int, b: int)
    requires IsSlot(i) && 32 <= b < 64 && control[b]
    ensures Release(control, i)[b] <==> i != 3
  {
  }

  /** Releasing what was claimed gives DR7 back when the slot's bits were clear. */
  lemma ReleaseUndoesClaim(control: Word, i: int, mode: Field, size: Field)
    requires IsSlot(i) && UpperHalfZero(control)
    requires forall b | 0 <= b < 64 && InSlot(i, b) :: !control[b]
    ensures Release(Claim(control, i, mode, size), i) == control
  {
  }

  /** find_free_stoppoint_register: the lowest slot with both enable bits clear. */
  method FindFreeSlot(control: Word) returns (r: Option<int>)
    ensures r.Some? ==> IsSlot(r.value) && !SlotOn(control, r.value)
    ensures r.Some? ==> forall j | 0 <= j < r.value :: SlotOn(control, j)
    ensures r.None? ==> forall j | IsSlot(j) :: SlotOn(control, j)
  {
    for i := 0 to 4
      invariant forall j | 0 <= j < i :: SlotOn(control, j)
    {
      if !control[2 * i] && !control[2 * i + 1] {
        return Some(i);
      }
    }
    return None;
  }
}
