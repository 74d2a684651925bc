/**
  The binary search of .eh_frame_hdr and the range check that follows it in
  call_frame_information::unwind.  A row of the search table gives the first
  address of a frame description entry and the entry itself.
 */
module EhHeader {
  import opened Options
  import opened Memory

  datatype Fde = Fde(start: nat, range: nat)

  datatype Entry = Entry(address: nat, fde: Fde)

  predicate StrictlySorted(table: seq<Entry>) {
    forall i, j | 0 <= i < j < |table| :: table[i].address < table[j].address
  }

  /** Rows name the start of their entry, and no entry reaches into the next. */
  predicate WellFormed(table: seq<Entry>) {
    && StrictlySorted(table)
    && (forall i | 0 <= i < |table| ::
          table[i].address == table[i].fde.start && table[i].fde.start + table[i].fde.range < MODULUS)
    && (forall i, j | 0 <= i < j < |table| :: table[i].fde.start + table[i].fde.range <= table[j].fde.start)
  }

  predicate Covers(f: Fde, pc: nat) {
    f.start <= pc < f.start + f.range
  }

  /**
    eh_hdr::operator[]: the search ends on every table; on a sorted one it fails
    exactly below the first address, and otherwise picks the last row at or
    below the address.  In an empty table the index of the last row wraps around,
    and the first row looked at is outside.
   */
  method Search(table: seq<Entry>, address: nat) returns (r: Option<nat>)
    requires |table| < MODULUS
    ensures table == [] ==> r.None?
    ensures r.Some? ==> r.value < |table|
    ensures StrictlySorted(table) && table != [] ==> (r.None? <==> address < table[0].address)
    ensures StrictlySorted(table) && r.Some? ==>
              && table[r.value].address <= address
              && forall j | r.value < j < |table| :: address < table[j].address
  {
    var low: nat, high: nat := 0, if |table| == 0 then MODULUS - 1 else |table| - 1;
    while low <= high
      invariant low <= high + 1 && (table == [] ==> low == 0 && high == MODULUS - 1)
      invariant table != [] ==> high + 1 <= |table|
      invariant StrictlySorted(table) ==> forall j | 0 <= j < low && j < |table| :: table[j].address < address
      invariant StrictlySorted(table) ==> forall j | high < j < |table| :: address < table[j].address
      decreases high + 1 - low
    {
      var mid := (low + high) / 2;
      if mid >= |table| {
        return None;
      }
      var entry := table[mid].address;
      if entry < address {
        low := mid + 1;
      } else if entry > address {
        if mid == 0 {
          return None;
        }
        high := mid - 1;
      } else {
        high := mid;
        break;
      }
    }
    return Some(high);
  }

  /**
    Search and range check of unwind: the entry returned always covers the
    address; in a well-formed table an address is accepted exactly when some
    entry covers it, and the entry returned is the only one that does.
   */
  method FindFde(table: seq<Entry>, pc: nat) returns (r: Option<Fde>)
    requires |table| < MODULUS && pc < MODULUS
    ensures WellFormed(table) ==> (r.Some? <==> exists i | 0 <= i < |table| :: Covers(table[i].fde, pc))
    ensures r.Some? ==> Covers(r.value, pc) && exists i | 0 <= i < |table| :: table[i].fde == r.value
    ensures WellFormed(table) && r.Some? ==>
              forall i | 0 <= i < |table| && Covers(table[i].fde, pc) :: table[i].fde == r.value
  {
    var k := Search(table, pc);
    if k.None? {
      assert StrictlySorted(table) ==> forall i | 0 < i < |table| :: table[0].address < table[i].address;
      return None;
    }
    var fde := table[k.value].fde;
    if WellFormed(table) {
      OnlyCandidate(table, k.value, pc);
    }
    if pc < fde.start || pc >= (fde.start + fde.range) % MODULUS {
      return None;
    }
    return Some(fde);
  }

  /** Only the last row at or below the address can cover it. */
  lemma OnlyCandidate(table: seq<Entry>, k: nat, pc: nat)
    requires WellFormed(table) && k < |table| && table[k].address <= pc
    requires forall j | k < j < |table| :: pc < table[j].address
    ensures forall i | 0 <= i < |table| && Covers(table[i].fde, pc) :: i == k
  {
  }
}
