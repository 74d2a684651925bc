/**
  Stop points as the user sees them, a list of sites and a list of watchpoints, and
  what each command of a session does to the lists.  Nothing here knows of memory
  contents, saved bytes or debug registers: a hardware stop point needs one of four
  slots, a software site a mapped word.
 */
module StopBoard {
  import opened Memory
  import opened DebugRegisters

  type Tid = nat

  datatype SiteState = SiteState(id: int, address: nat, hardware: bool, enabled: bool)

  datatype WatchState = WatchState(id: int, address: nat, mode: Mode, size: nat, enabled: bool)

  /** The bytes that are mapped, and the threads. */
  datatype Surroundings = Surroundings(mapped: set<nat>, tids: set<Tid>)

  datatype Board = Board(sites: seq<SiteState>, watches: seq<WatchState>)

  /** What a debugging session does with stop points; k is a position in the collection. */
  datatype Command =
    | NewSite(id: int, address: nat, hardware: bool)
    | EnableSite(k: nat)
    | DisableSite(k: nat)
    | EraseSiteAt(k: nat)
    | NewWatch(id: int, address: nat, mode: Mode, size: nat)
    | EnableWatchAt(k: nat)
    | DisableWatchAt(k: nat)
    | EraseWatchAt(k: nat)
    | StepOver(tid: Tid, pc: nat)
    | Step(tid: Tid, pc: nat, waitThrows: bool)
    | ResumeAll(pcs: map<Tid, nat>)
    | Write(address: nat, data: seq<Byte>)

  predicate OnWatches(c: Command) {
    c.NewWatch? || c.EnableWatchAt? || c.DisableWatchAt? || c.EraseWatchAt?
  }

  /** The inferior runs, or its memory is written. */
  predicate Runs(c: Command) {
    c.StepOver? || c.Step? || c.ResumeAll? || c.Write?
  }

  /** Which stop points, sites first, are in a debug register. */
  function InSlots(b: Board): (flags: seq<bool>)
    ensures |flags| == |b.sites| + |b.watches|
    ensures forall k | 0 <= k < |b.sites| :: flags[k] == (b.sites[k].hardware && b.sites[k].enabled)
    ensures forall k | 0 <= k < |b.watches| :: flags[|b.sites| + k] == b.watches[k].enabled
  {
    seq(|b.sites|, k requires 0 <= k < |b.sites| => b.sites[k].hardware && b.sites[k].enabled)
    + seq(|b.watches|, k requires 0 <= k < |b.watches| => b.watches[k].enabled)
  }

  function Count(flags: seq<bool>): nat {
    if flags == [] then 0
    else Count(flags[..|flags| - 1]) + if flags[|flags| - 1] then 1 else 0
  }

  /** Fewer than four stop points are in the debug registers. */
  predicate SlotLeft(b: Board) {
    Count(InSlots(b)) < 4
  }

  /** A site that is not enabled yet can be. */
  predicate CanEnable(b: Board, around: Surroundings, s: SiteState) {
    if s.hardware then SlotLeft(b) else forall x | s.address <= x < s.address + 8 :: x in around.mapped
  }

  predicate CanWatch(b: Board, around: Surroundings, address: nat, mode: Mode, size: nat) {
    && LegalSize(size) && (mode == Execute ==> size == 1) && address % size == 0 && address in around.mapped
    && forall w | w in b.watches :: w.address != address
  }

  /** What a command makes of the board; what is asked for a stop point that is not there changes nothing. */
  function Effect(b: Board, around: Surroundings, c: Command): Board {
    match c
    case NewSite(id, address, hardware) =>
      if exists s | s in b.sites :: s.address == address then b
      else b.(sites := b.sites + [SiteState(id, address, hardware, false)])
    case EnableSite(k) =>
      if k < |b.sites| && CanEnable(b, around, b.sites[k])
      then b.(sites := b.sites[k := b.sites[k].(enabled := true)]) else b
    case DisableSite(k) =>
      if k < |b.sites| then b.(sites := b.sites[k := b.sites[k].(enabled := false)]) else b
    case EraseSiteAt(k) =>
      if k < |b.sites| then b.(sites := b.sites[..k] + b.sites[k + 1..]) else b
    case NewWatch(id, address, mode, size) =>
      if CanWatch(b, around, address, mode, size)
      then b.(watches := b.watches + [WatchState(id, address, mode, size, false)]) else b
    case EnableWatchAt(k) =>
      if k < |b.watches| && SlotLeft(b) then b.(watches := b.watches[k := b.watches[k].(enabled := true)]) else b
    case DisableWatchAt(k) =>
      if k < |b.watches| then b.(watches := b.watches[k := b.watches[k].(enabled := false)]) else b
    case EraseWatchAt(k) =>
      if k < |b.watches| then b.(watches := b.watches[..k] + b.watches[k + 1..]) else b
    case Step(t, pc, waitThrows) =>
      if t in around.tids && waitThrows then b.(sites := DisabledAt(b.sites, pc)) else b
    case _ => b
  }

  function DisabledAt(sites: seq<SiteState>, pc: nat): seq<SiteState> {
    seq(|sites|, k requires 0 <= k < |sites| =>
      if sites[k].address == pc then sites[k].(enabled := false) else sites[k])
  }

  function Effects(b: Board, around: Surroundings, commands: seq<Command>): Board {
    if commands == [] then b
    else Effect(Effects(b, around, commands[..|commands| - 1]), around, commands[|commands| - 1])
  }

  ghost function Picked(flags: seq<bool>, slots: seq<int>): set<int>
    requires |flags| == |slots|
  {
    set k | 0 <= k < |flags| && flags[k] :: slots[k]
  }

  lemma {:induction false} CountPicked(flags: seq<bool>, slots: seq<int>)
    requires |flags| == |slots|
    requires forall j, k | 0 <= j < k < |flags| && flags[j] && flags[k] :: slots[j] != slots[k]
    ensures |Picked(flags, slots)| == Count(flags)
  {
    if flags != [] {
      var n := |flags| - 1;
      CountPicked(flags[..n], slots[..n]);
      assert Picked(flags, slots) == Picked(flags[..n], slots[..n]) + if flags[n] then {slots[n]} else {};
    }
  }

  /** Of the four slots, as many are free as are not in the set. */
  lemma FourSlots(taken: set<int>)
    requires forall i | i in taken :: IsSlot(i)
    ensures |taken| < 4 <==> exists i | IsSlot(i) :: i !in taken
  {
    var all := {0, 1, 2, 3};
    forall i | i in taken ensures i in all {
      assert IsSlot(i);
    }
    var free := all - taken;
    assert taken + free == all;
    if i :| IsSlot(i) && i !in taken {
      assert i in free;
    } else {
      assert forall i | i in all :: IsSlot(i);
      assert free == {};
    }
  }
}
