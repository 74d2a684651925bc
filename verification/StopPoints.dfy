/**
  Software traps patched into the inferior's memory and hardware stop points
  held in its debug registers: breakpoint_site, watchpoint, their collections
  and the parts of gsdb::process that arm and disarm them.
 */
module StopPoints {
  import opened Options
  import opened Memory
  import opened DebugRegisters
  import opened StopBoard

  const INT3: Byte := 0xcc

  /** No std::vector holds more bytes. */
  const MAX_BUFFER: nat := 0x8000_0000_0000_0000

  class Site {
    const id: int
    const address: nat
    const hardware: bool
    var enabled: bool
    var saved: Byte
    var register: int

    constructor (id: int, address: nat, hardware: bool)
      ensures this.id == id && this.address == address && this.hardware == hardware && !enabled
    {
      this.id, this.address, this.hardware := id, address, hardware;
      enabled, saved, register := false, 0, -1;
    }

    ghost predicate Trap()
      reads this
    {
      enabled && !hardware
    }

    ghost function State(): SiteState
      reads this
    {
      SiteState(id, address, hardware, enabled)
    }
  }

  class Watch {
    const id: int
    const address: nat
    const mode: Mode
    const size: nat
    var enabled: bool
    var register: int

    constructor (id: int, address: nat, mode: Mode, size: nat)
      ensures this.id == id && this.address == address && this.mode == mode && this.size == size && !enabled
    {
      this.id, this.address, this.mode, this.size := id, address, mode, size;
      enabled, register := false, -1;
    }

    ghost function State(): WatchState
      reads this
    {
      WatchState(id, address, mode, size, enabled)
    }
  }

  /** DR0-DR3 and DR7 of one thread. */
  datatype DebugFile = DebugFile(slots: seq<nat>, control: Word)

  datatype Owner = SiteOwner(site: Site) | WatchOwner(watch: Watch)

  /** The program's bytes with int3 at the armed addresses. */
  function Overlay(program: Space, armed: set<nat>): (m: Space)
    ensures m.Keys == program.Keys
    ensures forall a | a in program :: m[a] == if a in armed then INT3 else program[a]
  {
    map a | a in program :: if a in armed then INT3 else program[a]
  }

  /** Replacing the low byte of the word at a and poking it back changes one byte. */
  lemma PokeLowByte(m: Space, a: nat, b: Byte)
    requires Mapped(m, a, 8)
    ensures Stored(m, a, [b] + Slice(m, a, 8)[1..]) == m[a := b]
  {
  }

  lemma ArmOne(program: Space, armed: set<nat>, a: nat)
    requires a in program
    ensures Overlay(program, armed + {a}) == Overlay(program, armed)[a := INT3]
    ensures Overlay(program, armed - {a}) == Overlay(program, armed)[a := program[a]]
  {
  }

  /**
    A write through the overlay is a write to the program exactly when it puts
    int3 wherever it meets an armed byte, so in particular when it meets none.
   */
  lemma WriteCommutesIff(program: Space, armed: set<nat>, a: nat, data: seq<Byte>)
    ensures Stored(Overlay(program, armed), a, data) == Overlay(Stored(program, a, data), armed)
            <==> forall x | x in armed && x in program && a <= x < a + |data| :: data[x - a] == INT3
  {
    var m, m' := Stored(Overlay(program, armed), a, data), Overlay(Stored(program, a, data), armed);
    if m == m' {
      forall x | x in armed && x in program && a <= x < a + |data|
        ensures data[x - a] == INT3
      {
        assert m[x] == m'[x];
      }
    }
  }

  /** The program changes one byte of its own. */
  lemma ProgramByte(program: Space, armed: set<nat>, a: nat, b: Byte)
    requires a in program && a !in armed
    ensures Overlay(program, armed)[a := b] == Overlay(program[a := b], armed)
  {
  }

  /** A write that aims at no armed byte, or the part of it that went through. */
  lemma WriteMisses(program: Space, armed: set<nat>, a: nat, data: seq<Byte>, n: nat)
    requires |data| <= n && Misses(armed, a, n)
    ensures Stored(Overlay(program, armed), a, data) == Overlay(Stored(program, a, data), armed)
    ensures forall x | x in armed && x in program :: Stored(program, a, data)[x] == program[x]
  {
    WriteCommutesIff(program, armed, a, data);
  }

  lemma SamePages(m: Space, m': Space)
    requires WholePages(m) && m.Keys == m'.Keys
    ensures WholePages(m')
  {
    assert forall a :: a in m <==> a in m';
  }

  /** What a debug register file says about one slot. */
  datatype SlotView = Off | On(address: nat, mode: Field, size: Field)

  function View(f: DebugFile, i: int): SlotView
    requires IsSlot(i) && |f.slots| == 4
  {
    if SlotOn(f.control, i) then On(f.slots[i], ModeField(f.control, i), SizeField(f.control, i)) else Off
  }

  function WithAddress(f: DebugFile, i: int, address: nat): DebugFile
    requires IsSlot(i) && |f.slots| == 4
  {
    DebugFile(f.slots[i := address], f.control)
  }

  /** What the slot of this stop point must say. */
  ghost function Shown(o: Owner): SlotView {
    match o
    case SiteOwner(s) => On(s.address, EncodeMode(Execute), EncodeSize(1))
    case WatchOwner(w) => On(w.address, EncodeMode(w.mode), if LegalSize(w.size) then EncodeSize(w.size) else 0)
  }

  predicate Aligned(address: nat, size: nat) {
    LegalSize(size) && address % size == 0
  }

  /** The processor traps on this access to the byte at a because of slot i; the low bits of the address do not count. */
  predicate Triggers(f: DebugFile, i: int, access: Access, a: nat)
    requires IsSlot(i) && |f.slots| == 4
  {
    var n := WatchedBytes(SizeField(f.control, i));
    SlotOn(f.control, i) && access in WatchedAccesses(ModeField(f.control, i)) &&
    f.slots[i] - f.slots[i] % n <= a < f.slots[i] - f.slots[i] % n + n
  }

  /** The processor traps on this access to the byte at a. */
  ghost predicate Trips(f: DebugFile, access: Access, a: nat)
    requires |f.slots| == 4
  {
    exists i | IsSlot(i) :: Triggers(f, i, access, a)
  }

  /** The access is one that the stop point is for. */
  ghost predicate AskedFor(o: Owner, access: Access, a: nat) {
    match o
    case SiteOwner(s) => access == Fetch && a == s.address
    case WatchOwner(w) => access in AccessesOf(w.mode) && w.address <= a < w.address + w.size
  }

  ghost predicate Misses(armed: set<nat>, a: nat, n: nat) {
    forall x | x in armed :: !(a <= x < a + n)
  }

  ghost predicate AnySlotFree(f: DebugFile)
    requires |f.slots| == 4
  {
    exists i | IsSlot(i) :: View(f, i) == Off
  }

  /** Slot i changed to this view, the other slots read as before. */
  ghost predicate SlotBecame(f: DebugFile, f': DebugFile, i: int, v: SlotView)
    requires IsSlot(i) && |f.slots| == |f'.slots| == 4
  {
    forall j | IsSlot(j) :: View(f', j) == if j == i then v else View(f, j)
  }

  /** A continue request and what the inferior held when it was made. */
  datatype Request = Request(tid: Tid, memory: Space, program: Space)

  ghost function TidsOf(requests: seq<Request>): set<Tid> {
    set r | r in requests :: r.tid
  }

  /** Each thread was asked to continue once, each time with int3 at exactly the armed addresses. */
  ghost predicate ContinuedOnce(requests: seq<Request>, tids: set<Tid>, armed: set<nat>) {
    && TidsOf(requests) == tids
    && (forall i | 0 <= i < |requests| :: requests[i].memory == Overlay(requests[i].program, armed))
    && (forall i, j | 0 <= i < j < |requests| :: requests[i].tid != requests[j].tid)
  }

  lemma LogRequest(requests: seq<Request>, r: Request, tids: set<Tid>, armed: set<nat>)
    requires ContinuedOnce(requests, tids, armed) && r.tid !in tids && r.memory == Overlay(r.program, armed)
    ensures ContinuedOnce(requests + [r], tids + {r.tid}, armed)
  {
    forall i | 0 <= i < |requests| ensures requests[i].tid in TidsOf(requests) {
      assert requests[i] in requests;
    }
    assert forall q | q in requests + [r] :: q in requests || q == r;
    assert forall q | q in requests || q == r :: q in requests + [r];
  }

  lemma TakeFrom(at: set<Tid>, todo: set<Tid>, t: Tid)
    requires t in todo
    ensures at - (todo - {t}) == if t in at then at - todo + {t} else at - todo
  {
  }

  /** A single step of a thread, and what the inferior held when it was made. */
  datatype Executed = Executed(tid: Tid, pc: nat, memory: Space, program: Space, file: DebugFile)

  /** The byte at pc is the program's own, if it is mapped at all. */
  predicate OwnByte(e: Executed) {
    e.pc in e.program && e.pc in e.memory ==> e.memory[e.pc] == e.program[e.pc]
  }

  /** What a single step has to do with: the armed addresses, and those at which fetches are watched. */
  datatype Stops = Stops(armed: set<nat>, watched: iset<nat>)

  /**
    The step was made on the program with int3 at the armed addresses except its
    own, and an execution there triggers no slot but that of a watchpoint.
   */
  ghost predicate Unhindered(e: Executed, t: Tid, pc: nat, stops: Stops) {
    && e.tid == t && e.pc == pc && e.memory == Overlay(e.program, stops.armed - {pc})
    && |e.file.slots| == 4 && (Trips(e.file, Fetch, pc) <==> pc in stops.watched)
  }

  /** One more step, made on the program as it was. */
  ghost predicate OneMoreStep(log: seq<Executed>, log': seq<Executed>, t: Tid, pc: nat, program: Space, stops: Stops) {
    && |log'| == |log| + 1 && log' == log + [log'[|log|]]
    && log'[|log|].program == program && Unhindered(log'[|log|], t, pc, stops)
  }

  /** Each of these threads made one step, from its pc and unhindered, and no other thread any. */
  ghost predicate SteppedOnce(log: seq<Executed>, pcs: map<Tid, nat>, tids: set<Tid>, stops: Stops) {
    && Steppers(log) == tids
    && (forall k | 0 <= k < |log| :: log[k].tid in pcs && Unhindered(log[k], log[k].tid, pcs[log[k].tid], stops))
    && (forall j, k | 0 <= j < k < |log| :: log[j].tid != log[k].tid)
  }

  lemma OneMoreStepper(log: seq<Executed>, e: Executed, pcs: map<Tid, nat>, tids: set<Tid>, stops: Stops)
    requires SteppedOnce(log, pcs, tids, stops) && e.tid !in tids
    requires e.tid in pcs && Unhindered(e, e.tid, pcs[e.tid], stops)
    ensures SteppedOnce(log + [e], pcs, tids + {e.tid}, stops)
  {
    LogStep(log, e);
  }

  lemma LogNext(log: seq<Executed>, more: seq<Executed>, t: Tid, pcs: map<Tid, nat>, done: set<Tid>, stops: Stops)
    requires SteppedOnce(log, pcs, done, stops) && t in pcs && t !in done
    requires more == [] || (|more| == 1 && Unhindered(more[0], t, pcs[t], stops))
    ensures SteppedOnce(log + more, pcs, if more == [] then done else done + {t}, stops)
  {
    if more == [] {
      assert log + more == log;
    } else {
      assert more == [more[0]];
      OneMoreStepper(log, more[0], pcs, done, stops);
    }
  }

  ghost function Steppers(log: seq<Executed>): set<Tid> {
    set e | e in log :: e.tid
  }

  lemma LogStep(log: seq<Executed>, e: Executed)
    ensures Steppers(log + [e]) == Steppers(log) + {e.tid}
    ensures forall k | 0 <= k < |log| :: log[k].tid in Steppers(log)
  {
    forall k | 0 <= k < |log| ensures log[k].tid in Steppers(log) {
      assert log[k] in log;
    }
    assert forall x | x in log + [e] :: x in log || x == e;
    assert forall x | x in log || x == e :: x in log + [e];
  }

  class Inferior {
    var memory: Space
    ghost var program: Space
    var debug: map<Tid, DebugFile>
    var current: Tid
    var sites: seq<Site>
    var watches: seq<Watch>
    ghost var owner: map<int, Owner>
    /** The single steps made so far. */
    ghost var executed: seq<Executed>

    ghost function Armed(): set<nat>
      reads this`sites, sites
    {
      set s | s in sites && s.Trap() :: s.address
    }

    ghost predicate DistinctAddresses()
      reads this`sites, this`watches
    {
      && (forall i, j | 0 <= i < j < |sites| :: sites[i].address != sites[j].address)
      && (forall i, j | 0 <= i < j < |watches| :: watches[i].address != watches[j].address)
    }

    /** Memory is the program with int3 at exactly the enabled software sites. */
    ghost predicate TrapsOk()
      reads this`memory, this`program, this`sites, sites
    {
      && WholePages(program) && memory == Overlay(program, Armed())
      && (forall s | s in sites && s.Trap() :: Mapped(program, s.address, 8) && s.saved == program[s.address])
    }

    /** All threads hold the same debug registers. */
    ghost predicate Uniform()
      reads this`debug, this`current
    {
      && current in debug && |debug[current].slots| == 4
      && (forall t | t in debug :: debug[t] == debug[current])
    }

    /** Enabled slots correspond one to one with live hardware stop points. */
    ghost predicate SlotsOk()
      reads this`debug, this`current, this`owner, this`sites, this`watches, sites, watches
    {
      && Uniform()
      && (forall i | i in owner :: IsSlot(i))
      && (forall i | IsSlot(i) :: View(debug[current], i) == if i in owner then Shown(owner[i]) else Off)
      && (forall i | i in owner && owner[i].SiteOwner? ::
            var s := owner[i].site; s in sites && s.enabled && s.hardware && s.register == i)
      && (forall i | i in owner && owner[i].WatchOwner? ::
            var w := owner[i].watch; w in watches && w.enabled && w.register == i)
      && (forall s | s in sites && s.enabled && s.hardware ::
            s.register in owner && owner[s.register] == SiteOwner(s))
      && (forall w | w in watches && w.enabled ::
            w.register in owner && owner[w.register] == WatchOwner(w))
      && (forall w | w in watches :: Aligned(w.address, w.size))
    }

    /**
      On every thread the processor traps because of a slot on exactly the accesses
      that the stop point owning the slot is for, and because of no other slot.
     */
    lemma SlotTriggersIff(t: Tid, i: int, access: Access, a: nat)
      requires SlotsOk() && t in debug && IsSlot(i)
      ensures |debug[t].slots| == 4
      ensures Triggers(debug[t], i, access, a) <==> i in owner && AskedFor(owner[i], access, a)
    {
      var f := debug[current];
      assert debug[t] == f && View(f, i) == if i in owner then Shown(owner[i]) else Off;
      if i in owner && owner[i].WatchOwner? {
        var w := owner[i].watch;
        assert Aligned(w.address, w.size);
        FieldsDecode(w.mode, w.size);
      } else {
        FieldsDecode(Execute, 1);
      }
    }

    /** So the processor traps on exactly the accesses that the enabled hardware stop points are for. */
    lemma TrapsIff(t: Tid, access: Access, a: nat)
      requires SlotsOk() && t in debug
      ensures |debug[t].slots| == 4
      ensures Trips(debug[t], access, a) <==>
              || (exists s | s in sites && s.enabled && s.hardware :: AskedFor(SiteOwner(s), access, a))
              || WatchedAt(access, a)
    {
      forall i | IsSlot(i) ensures Triggers(debug[t], i, access, a) <==> i in owner && AskedFor(owner[i], access, a) {
        SlotTriggersIff(t, i, access, a);
      }
      SlotTriggersIff(t, 0, access, a);
      if i :| IsSlot(i) && Triggers(debug[t], i, access, a) {
        if owner[i].SiteOwner? {
          assert AskedFor(SiteOwner(owner[i].site), access, a);
        } else {
          assert AskedFor(WatchOwner(owner[i].watch), access, a);
        }
      }
      if s :| s in sites && s.enabled && s.hardware && AskedFor(SiteOwner(s), access, a) {
        assert IsSlot(s.register) && Triggers(debug[t], s.register, access, a);
      }
      if w :| w in watches && w.enabled && AskedFor(WatchOwner(w), access, a) {
        assert IsSlot(w.register) && Triggers(debug[t], w.register, access, a);
      }
    }

    ghost predicate Valid()
      reads this, sites, watches
    {
      DistinctAddresses() && TrapsOk() && SlotsOk()
    }

    constructor (program: Space, tids: set<Tid>, current: Tid, file: DebugFile)
      requires WholePages(program) && current in tids && |file.slots| == 4
      requires forall i | IsSlot(i) :: View(file, i) == Off
      ensures Valid() && sites == [] && watches == [] && this.program == program
      ensures debug == map t | t in tids :: file
    {
      memory, this.program := program, program;
      debug, this.current := map t | t in tids :: file, current;
      sites, watches, owner, executed := [], [], map[], [];
      new;
      assert Armed() == {};
    }

    /**
      set_hardware_stoppoint: claim the lowest free slot on every thread.  An
      illegal size is found out only after the current thread's slot address has
      been written, which then differs from the other threads'.
     */
    method SetHardwareStoppoint(address: nat, mode: Mode, size: nat) returns (r: Option<int>)
      requires Uniform()
      modifies this`debug
      ensures r.Some? <==> AnySlotFree(old(debug[current])) && LegalSize(size)
      ensures !AnySlotFree(old(debug[current])) ==> debug == old(debug)
      ensures AnySlotFree(old(debug[current])) && !LegalSize(size) ==>
                exists i | IsSlot(i) && View(old(debug[current]), i) == Off ::
                  debug == old(debug)[current := WithAddress(old(debug[current]), i, address)]
      ensures r.Some? ==> IsSlot(r.value) && View(old(debug[current]), r.value) == Off
      ensures r.Some? ==>
                var f := old(debug[current]);
                var f' := DebugFile(f.slots[r.value := address],
                                    Claim(f.control, r.value, EncodeMode(mode), EncodeSize(size)));
                debug == map t | t in old(debug) :: f'
    {
      var control := debug[current].control;
      r := FindFreeSlot(control);
      if r.None? {
        return;
      }
      var i := r.value;
      if !LegalSize(size) {
        assert View(debug[current], i) == Off;
        debug := debug[current := WithAddress(debug[current], i, address)];
        return None;
      }
      WriteEverywhere(i, address, Claim(control, i, EncodeMode(mode), EncodeSize(size)));
    }

    /** clear_hardware_stoppoint. */
    method ClearHardwareStoppoint(i: int)
      requires Uniform() && IsSlot(i)
      modifies this`debug
      ensures var f := old(debug[current]);
              debug == map t | t in old(debug) :: DebugFile(f.slots[i := 0], Release(f.control, i))
    {
      WriteEverywhere(i, 0, Release(debug[current].control, i));
    }

    /** One slot address and DR7, first on the current thread, then on the others. */
    method WriteEverywhere(i: int, address: nat, control: Word)
      requires Uniform() && IsSlot(i)
      modifies this`debug
      ensures var f := old(debug[current]);
              debug == map t | t in old(debug) :: DebugFile(f.slots[i := address], control)
    {
      ghost var f := debug[current];
      debug := debug[current := DebugFile(debug[current].slots[i := address], control)];
      var todo := debug.Keys;
      while todo != {}
        invariant todo <= debug.Keys == old(debug.Keys) && current in debug
        invariant debug[current] == DebugFile(f.slots[i := address], control)
        invariant forall t | t in debug ::
                    debug[t] == if t in todo && t != current then f else DebugFile(f.slots[i := address], control)
        decreases todo
      {
        var t :| t in todo;
        if t != current {
          debug := debug[t := DebugFile(debug[t].slots[i := address], control)];
        }
        todo := todo - {t};
      }
    }

    /** The same, in terms of what the slots read. */
    method ClaimSlot(address: nat, mode: Mode, size: nat) returns (r: Option<int>)
      requires Uniform() && LegalSize(size)
      modifies this`debug
      ensures Uniform() && debug.Keys == old(debug.Keys)
      ensures r.Some? <==> AnySlotFree(old(debug[current]))
      ensures r.None? ==> debug == old(debug)
      ensures r.Some? ==> IsSlot(r.value) && View(old(debug[current]), r.value) == Off
      ensures r.Some? ==> SlotBecame(old(debug[current]), debug[current], r.value,
                                     On(address, EncodeMode(mode), EncodeSize(size)))
    {
      r := SetHardwareStoppoint(address, mode, size);
      if r.Some? {
        ClaimFrames(old(debug[current].control), r.value, EncodeMode(mode), EncodeSize(size));
      }
    }

    method ReleaseSlot(i: int)
      requires Uniform() && IsSlot(i)
      modifies this`debug
      ensures Uniform() && debug.Keys == old(debug.Keys)
      ensures SlotBecame(old(debug[current]), debug[current], i, Off)
    {
      ClearHardwareStoppoint(i);
      ReleaseFrames(old(debug[current].control), i);
    }

    /** Patch int3 over the low byte of the word at the site. */
    method ArmTrap(s: Site)
      requires DistinctAddresses() && TrapsOk() && s in sites && !s.enabled && !s.hardware
      requires Mapped(memory, s.address, 8)
      modifies this`memory, s`enabled, s`saved
      ensures TrapsOk() && s.enabled
      ensures Armed() == old(Armed()) + {s.address}
    {
      ghost var armed := Armed();
      assert s.address in memory;
      assert s.address !in armed;
      PokeLowByte(memory, s.address, INT3);
      ArmOne(program, armed, s.address);
      var data := Slice(memory, s.address, 8);
      s.saved := data[0];
      assert s.saved == program[s.address];
      memory := Stored(memory, s.address, [INT3] + data[1..]);
      s.enabled := true;
      OneFlag(s);
    }

    /** Enabling or disabling one software site arms or disarms one address. */
    twostate lemma OneFlag(s: Site)
      requires old(DistinctAddresses()) && sites == old(sites) && s in sites && !s.hardware
      requires forall x | x in sites && x != s :: x.enabled == old(x.enabled)
      ensures Armed() == if s.enabled then old(Armed()) + {s.address} else old(Armed()) - {s.address}
    {
      assert forall x | x in sites && x != s :: x.address != s.address;
    }

    /** Put the saved byte back. */
    method DisarmTrap(s: Site)
      requires DistinctAddresses() && TrapsOk() && s in sites && s.enabled && !s.hardware
      modifies this`memory, s`enabled
      ensures TrapsOk() && !s.enabled
      ensures Armed() == old(Armed()) - {s.address}
    {
      ghost var armed := Armed();
      PokeLowByte(memory, s.address, s.saved);
      ArmOne(program, armed, s.address);
      var data := Slice(memory, s.address, 8);
      memory := Stored(memory, s.address, [s.saved] + data[1..]);
      s.enabled := false;
      OneFlag(s);
    }

    /** Claim a slot for a hardware site. */
    method ArmHardware(s: Site) returns (ok: bool)
      requires SlotsOk() && s in sites && !s.enabled && s.hardware
      modifies this`debug, this`owner, s`enabled, s`register
      ensures ok <==> AnySlotFree(old(debug[current]))
      ensures !ok ==> debug == old(debug) && owner == old(owner) && !s.enabled
      ensures SlotsOk() && (ok ==> s.enabled)
      ensures debug.Keys == old(debug.Keys)
    {
      var r := ClaimSlot(s.address, Execute, 1);
      if r.None? {
        return false;
      }
      s.register, s.enabled := r.value, true;
      owner := owner[r.value := SiteOwner(s)];
      return true;
    }

    method DisarmHardware(s: Site)
      requires SlotsOk() && s in sites && s.enabled && s.hardware
      modifies this`debug, this`owner, s`enabled, s`register
      ensures SlotsOk() && !s.enabled
      ensures AnySlotFree(debug[current])
      ensures debug.Keys == old(debug.Keys)
    {
      ghost var i := s.register;
      assert forall x | x in sites && x != s && x.enabled && x.hardware :: x.register != i;
      assert forall w | w in watches && w.enabled :: w.register != i;
      ReleaseSlot(s.register);
      owner := owner - {s.register};
      s.register := -1;
      s.enabled := false;
      assert View(debug[current], i) == Off;
    }

    /** Patching memory for a software site does not touch the slots. */
    twostate lemma TrapKeepsSlots(s: Site)
      requires old(SlotsOk()) && s in sites && !s.hardware
      requires sites == old(sites) && watches == old(watches) && current == old(current)
      requires debug == old(debug) && owner == old(owner)
      requires forall x | x in sites && x != s :: unchanged(x)
      requires forall w | w in watches :: unchanged(w)
      ensures SlotsOk()
    {
    }

    /** Moving a hardware site in or out of a slot does not touch memory. */
    twostate lemma SlotKeepsTraps(s: Site)
      requires old(TrapsOk()) && s in sites && s.hardware
      requires sites == old(sites) && memory == old(memory) && program == old(program)
      requires forall x | x in sites && x != s :: unchanged(x)
      ensures TrapsOk() && Armed() == old(Armed())
    {
      assert Armed() == old(Armed());
    }

    /** breakpoint_site::enable. */
    method Enable(s: Site) returns (ok: bool)
      requires Valid() && s in sites
      modifies this`memory, this`debug, this`owner, s
      ensures ok <==> old(s.enabled) || (if s.hardware
                then AnySlotFree(old(debug[current]))
                else Mapped(old(memory), s.address, 8))
      ensures s.enabled == ok
      ensures !ok ==> memory == old(memory) && debug == old(debug)
      ensures Valid() && debug.Keys == old(debug.Keys)
    {
      if s.enabled {
        return true;
      }
      if s.hardware {
        ok := ArmHardware(s);
        SlotKeepsTraps(s);
      } else {
        // PTRACE_PEEKDATA fails unless the whole word is mapped
        ok := Mapped(memory, s.address, 8);
        if ok {
          ArmTrap(s);
          TrapKeepsSlots(s);
        }
      }
    }

    /**
      breakpoint_site::disable.  The word of an armed site is mapped, so neither
      the peek nor the poke can be refused.
     */
    method Disable(s: Site)
      requires Valid() && s in sites
      modifies this`memory, this`debug, this`owner, s
      ensures Valid() && !s.enabled && debug.Keys == old(debug.Keys) && memory.Keys == old(memory.Keys)
      ensures Armed() == old(Armed()) - {s.address}
      ensures old(s.enabled) ==> if s.hardware then AnySlotFree(debug[current]) else Mapped(memory, s.address, 8)
    {
      if s.hardware || !s.enabled {
        NotArmed(s);
      }
      if !s.enabled {
        return;
      }
      if s.hardware {
        DisarmHardware(s);
        SlotKeepsTraps(s);
      } else {
        DisarmTrap(s);
        TrapKeepsSlots(s);
      }
    }

    lemma NotArmed(s: Site)
      requires DistinctAddresses() && s in sites && !s.Trap()
      ensures s.address !in Armed()
    {
    }

    /** watchpoint::enable. */
    method EnableWatch(w: Watch) returns (ok: bool)
      requires SlotsOk() && w in watches
      modifies this`debug, this`owner, w
      ensures ok <==> old(w.enabled) || AnySlotFree(old(debug[current]))
      ensures w.enabled == ok && (!ok ==> debug == old(debug))
      ensures SlotsOk() && debug.Keys == old(debug.Keys)
    {
      if w.enabled {
        return true;
      }
      var r := ClaimSlot(w.address, w.mode, w.size);
      if r.None? {
        return false;
      }
      w.register, w.enabled := r.value, true;
      owner := owner[r.value := WatchOwner(w)];
      return true;
    }

    /** Enabling a watchpoint while a slot is free. */
    method Arm(w: Watch) returns (slot: int)
      requires Valid() && w in watches && AnySlotFree(debug[current])
      modifies this`debug, this`owner, w
      ensures Valid() && sites == old(sites) && IsSlot(slot) && slot in owner && owner[slot] == WatchOwner(w)
      ensures View(debug[current], slot).On?
    {
      var ok := EnableWatch(w);
      slot := w.register;
    }

    /** watchpoint::disable. */
    method DisableWatch(w: Watch)
      requires SlotsOk() && w in watches
      modifies this`debug, this`owner, w`enabled
      ensures SlotsOk() && !w.enabled && debug.Keys == old(debug.Keys)
    {
      if w.enabled {
        ReleaseSlot(w.register);
        owner := owner - {w.register};
        w.enabled := false;
      }
    }

    /** find_by_address: the first site there, which is the only one. */
    method SiteAt(address: nat) returns (k: Option<int>)
      ensures k.Some? ==> 0 <= k.value < |sites| && sites[k.value].address == address
      ensures k.None? ==> forall s | s in sites :: s.address != address
    {
      for i := 0 to |sites|
        invariant forall j | 0 <= j < i :: sites[j].address != address
      {
        if sites[i].address == address {
          return Some(i);
        }
      }
      return None;
    }

    /** find_by_id: the first site with the id; internal sites share the id -1. */
    method SiteWithId(id: int) returns (k: Option<int>)
      ensures k.Some? ==> 0 <= k.value < |sites| && sites[k.value].id == id
      ensures k.Some? ==> forall j | 0 <= j < k.value :: sites[j].id != id
      ensures k.None? ==> forall s | s in sites :: s.id != id
    {
      for i := 0 to |sites|
        invariant forall j | 0 <= j < i :: sites[j].id != id
      {
        if sites[i].id == id {
          return Some(i);
        }
      }
      return None;
    }

    method WatchAt(address: nat) returns (k: Option<int>)
      ensures k.Some? ==> 0 <= k.value < |watches| && watches[k.value].address == address
      ensures k.None? ==> forall w | w in watches :: w.address != address
    {
      for i := 0 to |watches|
        invariant forall j | 0 <= j < i :: watches[j].address != address
      {
        if watches[i].address == address {
          return Some(i);
        }
      }
      return None;
    }

    /** create_breakpoint_site: refused when the address has a site already. */
    method CreateSite(id: int, address: nat, hardware: bool) returns (r: Option<Site>)
      requires Valid()
      modifies this`sites
      ensures Valid()
      ensures r.None? <==> exists s | s in old(sites) :: s.address == address
      ensures r.None? ==> sites == old(sites)
      ensures r.Some? ==> fresh(r.value) && sites == old(sites) + [r.value] && !r.value.enabled
                          && r.value.id == id && r.value.address == address && r.value.hardware == hardware
    {
      var k := SiteAt(address);
      if k.Some? {
        assert sites[k.value] in sites;
        return None;
      }
      var s := new Site(id, address, hardware);
      sites := sites + [s];
      assert Armed() == old(Armed());
      return Some(s);
    }

    /** create_watchpoint with the checks of the watchpoint constructor, which ends by reading the watched bytes. */
    method CreateWatch(id: int, address: nat, mode: Mode, size: nat) returns (r: Option<Watch>)
      requires Valid()
      modifies this`watches
      ensures Valid()
      ensures r.Some? <==> (forall w | w in old(watches) :: w.address != address)
                           && LegalSize(size) && (mode == Execute ==> size == 1) && address % size == 0
                           && address in memory
      ensures r.None? ==> watches == old(watches)
      ensures r.Some? ==> fresh(r.value) && watches == old(watches) + [r.value] && !r.value.enabled
                          && r.value.id == id && r.value.address == address && r.value.mode == mode && r.value.size == size
    {
      var k := WatchAt(address);
      if k.Some? {
        assert watches[k.value] in watches;
        return None;
      }
      if !LegalSize(size) || (mode == Execute && size != 1) || address % size != 0 || address !in memory {
        return None;
      }
      var w := new Watch(id, address, mode, size);
      AddWatch(w);
      return Some(w);
    }

    method AddWatch(w: Watch)
      requires Valid() && w !in watches && !w.enabled && Aligned(w.address, w.size)
      requires forall x | x in watches :: x.address != w.address
      modifies this`watches
      ensures Valid() && watches == old(watches) + [w]
    {
      watches := watches + [w];
      assert forall x | x in watches :: x in old(watches) || x == w;
    }

    /** remove_by_address and remove_by_id after the lookup: disable, then erase. */
    method RemoveSite(k: int)
      requires Valid() && 0 <= k < |sites|
      modifies this`memory, this`debug, this`owner, this`sites, sites[k]
      ensures Valid() && debug.Keys == old(debug.Keys)
      ensures sites == old(sites)[..k] + old(sites)[k + 1..]
    {
      Disable(sites[k]);
      EraseSite(k);
    }

    method EraseSite(k: int)
      requires Valid() && 0 <= k < |sites| && !sites[k].enabled
      modifies this`sites
      ensures Valid() && sites == old(sites)[..k] + old(sites)[k + 1..]
    {
      ghost var before := sites;
      sites := sites[..k] + sites[k + 1..];
      assert forall x | x in before :: x == before[k] || x in sites;
      assert Armed() == old(Armed());
    }

    method RemoveWatch(k: int)
      requires Valid() && 0 <= k < |watches|
      modifies this`debug, this`owner, this`watches, watches[k]
      ensures Valid() && debug.Keys == old(debug.Keys)
      ensures watches == old(watches)[..k] + old(watches)[k + 1..]
    {
      DisableWatch(watches[k]);
      ghost var before, gone := watches, watches[k];
      watches := watches[..k] + watches[k + 1..];
      assert forall x | x in before :: x == gone || x in watches;
    }

    /** The program may change everywhere but under the traps. */
    twostate lemma ChangeKeepsTraps()
      requires old(TrapsOk()) && sites == old(sites) && forall s | s in sites :: unchanged(s)
      requires program.Keys == old(program.Keys) && memory == Overlay(program, old(Armed()))
      requires forall x | x in old(Armed()) && x in program :: program[x] == old(program)[x]
      ensures TrapsOk()
    {
      assert Armed() == old(Armed());
      SamePages(old(program), program);
    }

    /**
      The debugger's write_memory, through the armed overlay.  Even a write that
      stops halfway keeps the overlay if it aims at no armed byte.
     */
    method WriteThrough(address: nat, data: seq<Byte>) returns (ok: bool)
      requires TrapsOk() && address < MODULUS
      modifies this`memory, this`program
      ensures ok <==> Mapped(old(memory), address, RoundUpToWord(|data|))
      ensures memory.Keys == old(memory.Keys)
      ensures ok ==> memory == Stored(old(memory), address, data) && program == Stored(old(program), address, data)
      ensures Misses(Armed(), address, |data|) ==> TrapsOk()
    {
      ghost var n;
      SamePages(program, memory);
      ok, n := StoreWords(address, data);
      assert ok ==> data[..n] == data;
      program := Stored(program, address, data[..n]);
      if Misses(Armed(), address, |data|) {
        WriteMisses(old(program), Armed(), address, data[..n], |data|);
        ChangeKeepsTraps();
      }
    }

    /** write_memory; n bytes have been written. */
    method StoreWords(address: nat, data: seq<Byte>) returns (ok: bool, ghost n: nat)
      requires WholePages(memory) && address < MODULUS
      modifies this`memory
      ensures ok <==> Mapped(old(memory), address, RoundUpToWord(|data|))
      ensures n <= |data| && (ok ==> n == |data|)
      ensures memory == Stored(old(memory), address, data[..n])
    {
      memory, ok := WriteMemory(memory, address, data);
      n := |data|;
      if ok {
        assert data[..n] == data;
      } else {
        n :| 0 <= n < |data| && memory == Stored(old(memory), address, data[..n]);
      }
    }

    method IsArmed(a: nat) returns (b: bool)
      ensures b == (a in Armed())
    {
      for i := 0 to |sites|
        invariant forall j | 0 <= j < i :: !(sites[j].Trap() && sites[j].address == a)
      {
        if sites[i].enabled && !sites[i].hardware && sites[i].address == a {
          assert sites[i] in sites && sites[i].Trap();
          return true;
        }
      }
      return false;
    }

    /** One step of the inferior: it may change any mapped byte that is not armed. */
    method ChangeByte(a: nat, b: Byte)
      requires TrapsOk()
      modifies this`memory, this`program
      ensures TrapsOk() && memory.Keys == old(memory.Keys)
    {
      var armed := IsArmed(a);
      if a in memory && !armed {
        ProgramByte(program, Armed(), a, b);
        memory, program := memory[a := b], program[a := b];
        assert program.Keys == old(program.Keys);
        ChangeKeepsTraps();
      }
    }

    /** The inferior executes for a while. */
    method Run()
      requires TrapsOk()
      modifies this`memory, this`program
      ensures TrapsOk() && memory.Keys == old(memory.Keys)
    {
      var steps: nat := *;
      while steps > 0
        invariant TrapsOk() && memory.Keys == old(memory.Keys)
      {
        var a: nat, b: Byte := *, *;
        ChangeByte(a, b);
        steps := steps - 1;
      }
    }

    /**
      read_memory_without_traps: every byte read from memory, except that an
      armed site in the range shows the program's byte.  Where the range is
      mapped this is the program.
     */
    method ReadMemoryWithoutTraps(address: nat, amount: nat) returns (r: Result<seq<Byte>>)
      requires TrapsOk() && address < MODULUS && amount < MAX_BUFFER
      ensures r.Err? <==> amount > 0 && address !in memory
      ensures r.Ok? ==> |r.value| == amount
      ensures r.Ok? ==> forall i | 0 <= i < amount ::
                r.value[i] == if address + i in Armed() then program[address + i]
                              else ReadBytes(memory, address, amount)[i]
      ensures r.Ok? && Mapped(memory, address, amount) ==> r.value == ReadBytes(program, address, amount)
    {
      r := ReadMemory(memory, address, amount);
      if r.Err? {
        return;
      }
      var bytes := r.value;
      ghost var seen: set<nat> := {};
      for k := 0 to |sites|
        invariant |bytes| == amount && seen <= Armed()
        invariant forall j | 0 <= j < k && sites[j].Trap() :: sites[j].address in seen
        invariant forall i | 0 <= i < amount ::
                    bytes[i] == if address + i in seen then program[address + i] else r.value[i]
      {
        var s := sites[k];
        if s.enabled && !s.hardware {
          seen := seen + {s.address};
          if address <= s.address < address + amount {
            bytes := bytes[s.address - address := s.saved];
          }
        }
      }
      assert seen == Armed();
      r := Ok(bytes);
      if Mapped(memory, address, amount) {
        ReadBytesSplit(memory, address, amount, amount);
        ReadBytesSplit(program, address, amount, amount);
      }
    }

    /** The armed addresses depend on nothing but the enabled flags. */
    twostate lemma SameFlagsSameArmed()
      requires sites == old(sites) && forall s | s in sites :: s.enabled == old(s.enabled)
      ensures Armed() == old(Armed())
    {
    }

    /** One instruction, which the thread executes on memory and debug registers as they are now. */
    method SingleStep(t: Tid, pc: nat)
      requires Valid() && t in debug
      modifies this`memory, this`program, this`executed
      ensures Valid() && memory.Keys == old(memory.Keys)
      ensures executed == old(executed) + [Executed(t, pc, old(memory), old(program), debug[t])]
    {
      executed := executed + [Executed(t, pc, memory, program, debug[t])];
      Run();
    }

    ghost predicate EnabledAt(pc: nat)
      reads this`sites, sites
    {
      exists s | s in sites :: s.enabled && s.address == pc
    }

    /** An enabled watchpoint is for this access. */
    ghost predicate WatchedAt(access: Access, a: nat)
      reads this`watches, watches
    {
      exists w | w in watches && w.enabled :: AskedFor(WatchOwner(w), access, a)
    }

    /** The addresses at which an enabled watchpoint is for fetches. */
    ghost function FetchesWatched(): iset<nat>
      reads this`watches, watches
    {
      iset a: nat | WatchedAt(Fetch, a)
    }

    ghost function InPlace(): Stops
      reads this`sites, this`watches, sites, watches
    {
      Stops(Armed(), FetchesWatched())
    }

    /** With no site enabled at pc, a step from there is unhindered. */
    lemma ClearToStep(t: Tid, pc: nat)
      requires Valid() && t in debug && !EnabledAt(pc)
      ensures Unhindered(Executed(t, pc, memory, program, debug[t]), t, pc, InPlace())
      ensures pc !in Armed()
    {
      TrapsIff(t, Fetch, pc);
      assert forall s | s in sites && s.enabled && s.hardware :: !AskedFor(SiteOwner(s), Fetch, pc);
      assert Armed() - {pc} == Armed();
    }

    /** One instruction with no site enabled at pc. */
    method StepClear(t: Tid, pc: nat)
      requires Valid() && t in debug && !EnabledAt(pc)
      modifies this`memory, this`program, this`executed
      ensures Valid() && memory.Keys == old(memory.Keys)
      ensures OneMoreStep(old(executed), executed, t, pc, old(program), old(InPlace()))
    {
      ClearToStep(t, pc);
      SingleStep(t, pc);
    }

    /**
      step_over_breakpoint: with an enabled site at pc, disarm it, let the thread
      execute one instruction, and arm it again.  Rearming cannot fail.
     */
    method StepOverBreakpoint(t: Tid, pc: nat)
      requires Valid() && t in debug
      modifies this`memory, this`program, this`debug, this`owner, this`executed, sites
      ensures Valid() && debug.Keys == old(debug.Keys) && memory.Keys == old(memory.Keys)
      ensures forall s | s in sites :: s.enabled == old(s.enabled)
      ensures if old(EnabledAt(pc)) then OneMoreStep(old(executed), executed, t, pc, old(program), old(InPlace()))
              else executed == old(executed)
    {
      var k := SiteAt(pc);
      EnabledIff(k, pc);
      if k.Some? && sites[k.value].enabled {
        OnlySiteAt(k.value, pc);
        StepSite(t, sites[k.value], false);
      }
    }

    /**
      step_instruction: the site at pc is out of the way while the thread executes
      one instruction and is waited for.  If the wait throws, the site at pc stays
      disabled, and nothing arms it again but another call of enable.
     */
    method StepInstruction(t: Tid, pc: nat, waitThrows: bool)
      requires Valid() && t in debug
      modifies this`memory, this`program, this`debug, this`owner, this`executed, sites
      ensures Valid() && debug.Keys == old(debug.Keys) && memory.Keys == old(memory.Keys)
      ensures forall s | s in sites :: s.enabled == (old(s.enabled) && !(waitThrows && s.address == pc))
      ensures OneMoreStep(old(executed), executed, t, pc, old(program), old(InPlace()))
    {
      var k := SiteAt(pc);
      EnabledIff(k, pc);
      if k.Some? && sites[k.value].enabled {
        OnlySiteAt(k.value, pc);
        StepSite(t, sites[k.value], waitThrows);
      } else {
        StepClear(t, pc);
      }
    }

    lemma EnabledIff(k: Option<int>, pc: nat)
      requires DistinctAddresses()
      requires k.Some? ==> 0 <= k.value < |sites| && sites[k.value].address == pc
      requires k.None? ==> forall s | s in sites :: s.address != pc
      ensures EnabledAt(pc) <==> k.Some? && sites[k.value].enabled
    {
      if k.Some? {
        assert sites[k.value] in sites;
        OnlySiteAt(k.value, pc);
      }
    }

    lemma OnlySiteAt(k: nat, pc: nat)
      requires DistinctAddresses() && k < |sites| && sites[k].address == pc
      ensures forall s | s in sites :: s.address == pc <==> s == sites[k]
    {
    }

    /** One instruction with the site out of the way. */
    method StepWithout(t: Tid, bp: Site)
      requires Valid() && bp in sites && bp.enabled && t in debug
      requires forall s | s in sites :: s.address == bp.address <==> s == bp
      modifies this`memory, this`program, this`debug, this`owner, this`executed, bp
      ensures Valid() && !bp.enabled && debug.Keys == old(debug.Keys) && memory.Keys == old(memory.Keys)
      ensures if bp.hardware then AnySlotFree(debug[current]) else Mapped(memory, bp.address, 8)
      ensures OneMoreStep(old(executed), executed, t, bp.address, old(program), old(InPlace()))
    {
      Disable(bp);
      StepClear(t, bp.address);
      assert old(Armed()) - {bp.address} - {bp.address} == old(Armed()) - {bp.address};
    }

    /** The same, and the site is enabled again unless the wait throws. */
    method StepSite(t: Tid, bp: Site, waitThrows: bool)
      requires Valid() && bp in sites && bp.enabled && t in debug
      requires forall s | s in sites :: s.address == bp.address <==> s == bp
      modifies this`memory, this`program, this`debug, this`owner, this`executed, bp
      ensures Valid() && bp.enabled == !waitThrows && debug.Keys == old(debug.Keys) && memory.Keys == old(memory.Keys)
      ensures OneMoreStep(old(executed), executed, t, bp.address, old(program), old(InPlace()))
    {
      StepWithout(t, bp);
      if !waitThrows {
        var ok := Enable(bp);
        assert ok;
      }
    }

    /** send_continue is only ever asked for with every enabled site in place. */
    method SendContinue(t: Tid)
      requires Valid() && t in debug
      modifies this`memory, this`program
      ensures Valid() && memory.Keys == old(memory.Keys)
    {
      Run();
    }

    /**
      resume_all_threads: each thread at an enabled site makes one step on its own
      instruction and no other thread makes any; the sites enabled before are armed
      at each continue request, each thread is asked to continue once, and the same
      sites are enabled afterwards.
     */
    method ResumeAllThreads(pcs: map<Tid, nat>) returns (ghost steps: seq<Executed>, ghost requests: seq<Request>)
      requires Valid() && pcs.Keys == debug.Keys
      modifies this`memory, this`program, this`debug, this`owner, this`executed, sites
      ensures Valid() && debug.Keys == old(debug.Keys) && memory.Keys == old(memory.Keys)
      ensures forall s | s in sites :: s.enabled == old(s.enabled)
      ensures executed == old(executed) + steps && SteppedOnce(steps, pcs, old(AtSites(pcs)), old(InPlace()))
      ensures ContinuedOnce(requests, debug.Keys, old(Armed()))
    {
      steps := StepOverAll(pcs);
      requests := ContinueAll();
    }

    /** The threads that are at an enabled site. */
    ghost function AtSites(pcs: map<Tid, nat>): set<Tid>
      reads this`sites, sites
    {
      set t | t in pcs && EnabledAt(pcs[t])
    }

    twostate lemma SameFlags(pcs: map<Tid, nat>)
      requires sites == old(sites) && forall s | s in sites :: s.enabled == old(s.enabled)
      ensures Armed() == old(Armed()) && AtSites(pcs) == old(AtSites(pcs))
    {
      SameFlagsSameArmed();
    }

    method StepOverAll(pcs: map<Tid, nat>) returns (ghost log: seq<Executed>)
      requires Valid() && pcs.Keys == debug.Keys
      modifies this`memory, this`program, this`debug, this`owner, this`executed, sites
      ensures Valid() && debug.Keys == old(debug.Keys) && memory.Keys == old(memory.Keys)
      ensures forall s | s in sites :: s.enabled == old(s.enabled)
      ensures Armed() == old(Armed())
      ensures executed == old(executed) + log && SteppedOnce(log, pcs, old(AtSites(pcs)), old(InPlace()))
    {
      var todo := debug.Keys;
      ghost var start, stops, at := executed, InPlace(), AtSites(pcs);
      log := [];
      assert at - todo == {};
      while todo != {}
        invariant Valid() && todo <= debug.Keys == old(debug.Keys) && memory.Keys == old(memory.Keys)
        invariant forall s | s in sites :: s.enabled == old(s.enabled)
        invariant InPlace() == stops && AtSites(pcs) == at
        invariant executed == start + log && SteppedOnce(log, pcs, at - todo, stops)
        decreases todo
      {
        var t :| t in todo;
        log := StepOverNext(t, pcs, start, log, todo);
        todo := todo - {t};
      }
      assert at - todo == at;
    }

    method StepOverNext(t: Tid, pcs: map<Tid, nat>, ghost start: seq<Executed>, ghost log: seq<Executed>, ghost todo: set<Tid>)
      returns (ghost log': seq<Executed>)
      requires Valid() && t in debug && t in pcs && t in todo && executed == start + log
      requires SteppedOnce(log, pcs, AtSites(pcs) - todo, InPlace())
      modifies this`memory, this`program, this`debug, this`owner, this`executed, sites
      ensures Valid() && debug.Keys == old(debug.Keys) && memory.Keys == old(memory.Keys)
      ensures forall s | s in sites :: s.enabled == old(s.enabled)
      ensures InPlace() == old(InPlace()) && AtSites(pcs) == old(AtSites(pcs))
      ensures executed == start + log' && SteppedOnce(log', pcs, old(AtSites(pcs)) - (todo - {t}), old(InPlace()))
    {
      ghost var at, before := AtSites(pcs), executed;
      StepOverBreakpoint(t, pcs[t]);
      SameFlags(pcs);
      ghost var more := if t in at then [executed[|before|]] else [];
      LogNext(log, more, t, pcs, at - todo, old(InPlace()));
      TakeFrom(at, todo, t);
      log' := log + more;
      assert executed == start + log';
    }

    method ContinueAll() returns (ghost requests: seq<Request>)
      requires Valid()
      modifies this`memory, this`program
      ensures Valid() && memory.Keys == old(memory.Keys)
      ensures ContinuedOnce(requests, debug.Keys, Armed())
    {
      requests := [];
      ghost var armed := Armed();
      var todo := debug.Keys;
      ghost var done: set<Tid> := {};
      while todo != {}
        invariant Valid() && Armed() == armed && memory.Keys == old(memory.Keys)
        invariant todo !! done && todo + done == debug.Keys && ContinuedOnce(requests, done, armed)
        decreases todo
      {
        var t :| t in todo;
        LogRequest(requests, Request(t, memory, program), done, armed);
        requests := requests + [Request(t, memory, program)];
        SendContinue(t);
        todo, done := todo - {t}, done + {t};
      }
    }

    /**
      get_current_hardware_stoppoint for the slot DR6 names.  The search by
      address finds the stop point that owns the slot exactly when the owner is
      a breakpoint site or no breakpoint site, enabled or not, sits at the
      watchpoint's address.
     */
    method CurrentHardwareStoppoint(i: int) returns (r: Option<Owner>)
      requires Valid() && IsSlot(i) && View(debug[current], i).On?
      ensures i in owner && r.Some?
      ensures r == Some(owner[i]) <==>
                owner[i].SiteOwner? || forall s | s in sites :: s.address != owner[i].watch.address
      ensures r != Some(owner[i]) ==> r.value.SiteOwner? && r.value.site in sites
    {
      var address := debug[current].slots[i];
      var k := SiteAt(address);
      if k.Some? {
        assert sites[k.value] in sites;
        return Some(SiteOwner(sites[k.value]));
      }
      k := WatchAt(address);
      if k.None? {
        return None;
      }
      return Some(WatchOwner(watches[k.value]));
    }

    /** The debugger's write is let through if it aims at no armed byte. */
    method WriteUnarmed(address: nat, data: seq<Byte>)
      requires Valid()
      modifies this`memory, this`program
      ensures Valid() && memory.Keys == old(memory.Keys)
    {
      for k := 0 to |sites|
        invariant forall j | 0 <= j < k && sites[j].Trap() :: !(address <= sites[j].address < address + |data|)
      {
        var s := sites[k];
        if s.enabled && !s.hardware && address <= s.address < address + |data| {
          return;
        }
      }
      if address < MODULUS {
        var _ := WriteThrough(address, data);
      }
    }

    // ---- a session, seen from the board ----

    ghost function SiteStates(): (r: seq<SiteState>)
      reads this`sites, sites
      ensures |r| == |sites| && forall k | 0 <= k < |r| :: r[k] == sites[k].State()
    {
      var ss := sites;
      seq(|ss|, k requires 0 <= k < |ss| reads ss => ss[k].State())
    }

    ghost function WatchStates(): (r: seq<WatchState>)
      reads this`watches, watches
      ensures |r| == |watches| && forall k | 0 <= k < |r| :: r[k] == watches[k].State()
    {
      var ws := watches;
      seq(|ws|, k requires 0 <= k < |ws| reads ws => ws[k].State())
    }

    ghost function Seen(): Board
      reads this`sites, this`watches, sites, watches
    {
      Board(SiteStates(), WatchStates())
    }

    ghost function Around(): Surroundings
      reads this`memory, this`debug
    {
      Surroundings(memory.Keys, debug.Keys)
    }

    /** The register of each stop point, sites first. */
    ghost function Registers(): (r: seq<int>)
      reads this`sites, this`watches, sites, watches
      ensures |r| == |sites| + |watches|
      ensures forall k | 0 <= k < |sites| :: r[k] == sites[k].register
      ensures forall k | 0 <= k < |watches| :: r[|sites| + k] == watches[k].register
    {
      var ss, ws := sites, watches;
      seq(|ss|, k requires 0 <= k < |ss| reads ss => ss[k].register)
      + seq(|ws|, k requires 0 <= k < |ws| reads ws => ws[k].register)
    }

    /** The stop point at position k, sites first. */
    ghost function OwnerAt(k: nat): Owner
      requires k < |sites| + |watches|
      reads this`sites, this`watches
    {
      if k < |sites| then SiteOwner(sites[k]) else WatchOwner(watches[k - |sites|])
    }

    lemma HolderOwns(k: nat)
      requires k < |sites| + |watches| && InSlots(Seen())[k]
      requires forall s | s in sites && s.enabled && s.hardware :: s.register in owner && owner[s.register] == SiteOwner(s)
      requires forall w | w in watches && w.enabled :: w.register in owner && owner[w.register] == WatchOwner(w)
      ensures Registers()[k] in owner && owner[Registers()[k]] == OwnerAt(k)
    {
      if k < |sites| {
        assert sites[k] in sites;
      } else {
        var j := k - |sites|;
        assert watches[j] in watches && Registers()[|sites| + j] == watches[j].register;
        assert InSlots(Seen())[|sites| + j] == watches[j].enabled;
      }
    }

    lemma OwnerHolds(i: int) returns (k: nat)
      requires i in owner
      requires match owner[i]
               case SiteOwner(s) => s in sites && s.enabled && s.hardware && s.register == i
               case WatchOwner(w) => w in watches && w.enabled && w.register == i
      ensures k < |sites| + |watches| && InSlots(Seen())[k] && Registers()[k] == i
    {
      if owner[i].SiteOwner? {
        k :| 0 <= k < |sites| && sites[k] == owner[i].site;
      } else {
        var j :| 0 <= j < |watches| && watches[j] == owner[i].watch;
        k := |sites| + j;
      }
    }

    lemma DistinctOwners(j: nat, k: nat)
      requires DistinctAddresses() && j < k < |sites| + |watches|
      ensures OwnerAt(j) != OwnerAt(k)
    {
    }

    lemma OwnersCounted()
      requires DistinctAddresses() && SlotsOk()
      ensures |owner.Keys| == Count(InSlots(Seen()))
    {
      var flags, registers := InSlots(Seen()), Registers();
      forall k | 0 <= k < |flags| && flags[k] ensures registers[k] in owner && owner[registers[k]] == OwnerAt(k) {
        HolderOwns(k);
      }
      forall j, k | 0 <= j < k < |flags| && flags[j] && flags[k] ensures registers[j] != registers[k] {
        DistinctOwners(j, k);
      }
      forall i | i in owner ensures i in Picked(flags, registers) {
        var k := OwnerHolds(i);
      }
      assert owner.Keys == Picked(flags, registers);
      CountPicked(flags, registers);
    }

    /** A debug register is free exactly if fewer than four hardware sites and watchpoints are enabled. */
    lemma SlotLeftIff()
      requires DistinctAddresses() && SlotsOk()
      ensures AnySlotFree(debug[current]) <==> SlotLeft(Seen())
    {
      OwnersCounted();
      FourSlots(owner.Keys);
      assert forall i | IsSlot(i) :: View(debug[current], i) == Off <==> i !in owner.Keys;
    }

    twostate lemma OneSiteSeen(k: nat)
      requires sites == old(sites) && watches == old(watches) && k < |sites|
      requires forall x | x in sites && x != sites[k] :: x.enabled == old(x.enabled)
      requires forall w | w in watches :: w.enabled == old(w.enabled)
      requires old(DistinctAddresses())
      ensures Seen() == old(Seen()).(sites := old(SiteStates())[k := old(SiteStates())[k].(enabled := sites[k].enabled)])
    {
      assert WatchStates() == old(WatchStates());
    }

    twostate lemma OneWatchSeen(k: nat)
      requires sites == old(sites) && watches == old(watches) && k < |watches|
      requires forall x | x in watches && x != watches[k] :: x.enabled == old(x.enabled)
      requires forall s | s in sites :: s.enabled == old(s.enabled)
      requires old(DistinctAddresses())
      ensures Seen() == old(Seen()).(watches := old(WatchStates())[k := old(WatchStates())[k].(enabled := watches[k].enabled)])
    {
      assert SiteStates() == old(SiteStates());
    }

    lemma CanEnableIff(k: nat)
      requires DistinctAddresses() && SlotsOk() && k < |sites|
      ensures sites[k] in sites
      ensures CanEnable(Seen(), Around(), SiteStates()[k]) <==>
              if sites[k].hardware then AnySlotFree(debug[current]) else Mapped(memory, sites[k].address, 8)
    {
      SlotLeftIff();
    }

    method PerformEnable(k: nat)
      requires Valid()
      modifies this`memory, this`debug, this`owner, sites
      ensures Valid() && Around() == old(Around())
      ensures Seen() == Effect(old(Seen()), old(Around()), EnableSite(k))
    {
      if k < |sites| {
        CanEnableIff(k);
        var ok := Enable(sites[k]);
        OneSiteSeen(k);
      }
    }

    method PerformDisable(k: nat)
      requires Valid()
      modifies this`memory, this`debug, this`owner, sites
      ensures Valid() && Around() == old(Around())
      ensures Seen() == Effect(old(Seen()), old(Around()), DisableSite(k))
    {
      if k < |sites| {
        assert sites[k] in sites;
        Disable(sites[k]);
        OneSiteSeen(k);
      }
    }

    method PerformErase(k: nat)
      requires Valid()
      modifies this`memory, this`debug, this`owner, this`sites, sites
      ensures Valid() && Around() == old(Around())
      ensures forall s | s in sites :: s in old(sites)
      ensures Seen() == Effect(old(Seen()), old(Around()), EraseSiteAt(k))
    {
      if k < |sites| {
        assert sites[k] in sites;
        RemoveSite(k);
        ErasedSeen(k);
      }
    }

    twostate lemma ErasedSeen(k: nat)
      requires k < |old(sites)| && sites == old(sites)[..k] + old(sites)[k + 1..]
      requires forall s | s in sites :: s.enabled == old(s.enabled)
      requires watches == old(watches) && forall w | w in watches :: w.enabled == old(w.enabled)
      ensures Seen() == old(Seen()).(sites := old(SiteStates())[..k] + old(SiteStates())[k + 1..])
    {
      assert WatchStates() == old(WatchStates());
    }

    method PerformNew(id: int, address: nat, hardware: bool)
      requires Valid()
      modifies this`sites
      ensures Valid()
      ensures forall s | s in sites :: s in old(sites) || fresh(s)
      ensures Seen() == Effect(old(Seen()), old(Around()), NewSite(id, address, hardware))
    {
      ghost var before := Seen();
      var r := CreateSite(id, address, hardware);
      assert forall s | s in old(sites) :: s.State() in before.sites;
      assert WatchStates() == old(WatchStates());
    }

    method PerformStep(c: Command)
      requires Valid() && (c.StepOver? || c.Step?) && c.tid in debug
      modifies this`memory, this`program, this`debug, this`owner, this`executed, sites
      ensures Valid() && Around() == old(Around())
      ensures Seen() == Effect(old(Seen()), old(Around()), c)
      ensures Extended(old(executed))
    {
      if c.StepOver? {
        StepOverBreakpoint(c.tid, c.pc);
      } else {
        StepInstruction(c.tid, c.pc, c.waitThrows);
      }
      assert WatchStates() == old(WatchStates());
      assert SiteStates() == Effect(old(Seen()), old(Around()), c).sites;
    }

    /** More steps may have been made, each on the program's own byte. */
    ghost predicate Extended(log: seq<Executed>)
      reads this`executed
    {
      log <= executed && forall k | |log| <= k < |executed| :: OwnByte(executed[k])
    }

    method PerformResume(pcs: map<Tid, nat>)
      requires Valid()
      modifies this`memory, this`program, this`debug, this`owner, this`executed, sites
      ensures Valid() && Around() == old(Around())
      ensures Seen() == old(Seen())
      ensures Extended(old(executed))
    {
      if pcs.Keys == debug.Keys {
        ghost var steps, _ := ResumeAllThreads(pcs);
        forall k | |old(executed)| <= k < |executed| ensures OwnByte(executed[k]) {
          assert executed[k] == steps[k - |old(executed)|];
        }
      }
      assert WatchStates() == old(WatchStates());
      assert SiteStates() == old(SiteStates());
    }

    method PerformOnSites(c: Command)
      requires Valid() && !OnWatches(c) && !Runs(c)
      modifies this`memory, this`debug, this`owner, this`sites, sites
      ensures Valid() && Around() == old(Around())
      ensures forall s | s in sites :: s in old(sites) || fresh(s)
      ensures Seen() == Effect(old(Seen()), old(Around()), c)
    {
      match c {
        case NewSite(id, address, hardware) => PerformNew(id, address, hardware);
        case EnableSite(k) => PerformEnable(k);
        case DisableSite(k) => PerformDisable(k);
        case EraseSiteAt(k) => PerformErase(k);
      }
    }

    method PerformRun(c: Command)
      requires Valid() && Runs(c)
      modifies this`memory, this`program, this`debug, this`owner, this`executed, sites
      ensures Valid() && Around() == old(Around())
      ensures Seen() == Effect(old(Seen()), old(Around()), c)
      ensures Extended(old(executed))
    {
      match c {
        case StepOver(t, _) => if t in debug { PerformStep(c); }
        case Step(t, _, _) => if t in debug { PerformStep(c); }
        case ResumeAll(pcs) => PerformResume(pcs);
        case Write(address, data) => WriteUnarmed(address, data);
      }
    }

    method PerformNewWatch(id: int, address: nat, mode: Mode, size: nat)
      requires Valid()
      modifies this`watches
      ensures Valid()
      ensures forall w | w in watches :: w in old(watches) || fresh(w)
      ensures Seen() == Effect(old(Seen()), old(Around()), NewWatch(id, address, mode, size))
    {
      CanWatchIff(address, mode, size);
      var r := CreateWatch(id, address, mode, size);
      assert SiteStates() == old(SiteStates());
    }

    lemma CanWatchIff(address: nat, mode: Mode, size: nat)
      ensures CanWatch(Seen(), Around(), address, mode, size) <==>
              && LegalSize(size) && (mode == Execute ==> size == 1) && address % size == 0 && address in memory
              && forall w | w in watches :: w.address != address
    {
      assert forall w | w in watches :: w.State() in WatchStates();
    }

    method PerformEnableWatch(k: nat)
      requires Valid()
      modifies this`debug, this`owner, watches
      ensures Valid() && Around() == old(Around())
      ensures Seen() == Effect(old(Seen()), old(Around()), EnableWatchAt(k))
    {
      if k < |watches| {
        SlotLeftIff();
        assert watches[k] in watches;
        var ok := EnableWatch(watches[k]);
        OneWatchSeen(k);
      }
    }

    method PerformDisableWatch(k: nat)
      requires Valid()
      modifies this`debug, this`owner, watches
      ensures Valid() && Around() == old(Around())
      ensures Seen() == Effect(old(Seen()), old(Around()), DisableWatchAt(k))
    {
      if k < |watches| {
        assert watches[k] in watches;
        DisableWatch(watches[k]);
        OneWatchSeen(k);
      }
    }

    method PerformEraseWatch(k: nat)
      requires Valid()
      modifies this`debug, this`owner, this`watches, watches
      ensures Valid() && Around() == old(Around())
      ensures forall w | w in watches :: w in old(watches)
      ensures Seen() == Effect(old(Seen()), old(Around()), EraseWatchAt(k))
    {
      if k < |watches| {
        assert watches[k] in watches;
        RemoveWatch(k);
        ErasedWatchSeen(k);
      }
    }

    twostate lemma ErasedWatchSeen(k: nat)
      requires k < |old(watches)| && watches == old(watches)[..k] + old(watches)[k + 1..]
      requires forall w | w in watches :: w.enabled == old(w.enabled)
      requires sites == old(sites) && forall s | s in sites :: s.enabled == old(s.enabled)
      ensures Seen() == old(Seen()).(watches := old(WatchStates())[..k] + old(WatchStates())[k + 1..])
    {
      assert SiteStates() == old(SiteStates());
    }

    method PerformOnWatches(c: Command)
      requires Valid() && OnWatches(c)
      modifies this`debug, this`owner, this`watches, watches
      ensures Valid() && Around() == old(Around())
      ensures forall w | w in watches :: w in old(watches) || fresh(w)
      ensures Seen() == Effect(old(Seen()), old(Around()), c)
    {
      match c {
        case NewWatch(id, address, mode, size) => PerformNewWatch(id, address, mode, size);
        case EnableWatchAt(k) => PerformEnableWatch(k);
        case DisableWatchAt(k) => PerformDisableWatch(k);
        case EraseWatchAt(k) => PerformEraseWatch(k);
      }
    }

    /**
      Whatever is done, in whatever order: the stop points are those of the board,
      memory and debug registers match them, and each single step is made on the
      program's own byte.
     */
    method Session(commands: seq<Command>)
      requires Valid()
      modifies this, sites, watches
      ensures Valid() && Around() == old(Around())
      ensures Seen() == Effects(old(Seen()), old(Around()), commands)
      ensures Extended(old(executed))
    {
      for i := 0 to |commands|
        invariant Valid() && Around() == old(Around())
        invariant forall s | s in sites :: s in old(sites) || fresh(s)
        invariant forall w | w in watches :: w in old(watches) || fresh(w)
        invariant Seen() == Effects(old(Seen()), old(Around()), commands[..i])
        invariant Extended(old(executed))
      {
        assert commands[..i + 1][..i] == commands[..i];
        assert forall k | 0 <= k < |sites| :: sites[k] in sites;
        assert forall k | 0 <= k < |watches| :: watches[k] in watches;
        Perform(commands[i]);
      }
      assert commands[..|commands|] == commands;
    }

    method Perform(c: Command)
      requires Valid()
      modifies this, sites, watches
      ensures Valid() && Around() == old(Around())
      ensures forall s | s in sites :: s in old(sites) || fresh(s)
      ensures forall w | w in watches :: w in old(watches) || fresh(w)
      ensures Seen() == Effect(old(Seen()), old(Around()), c)
      ensures Extended(old(executed))
    {
      if OnWatches(c) {
        PerformOnWatches(c);
      } else if Runs(c) {
        PerformRun(c);
      } else {
        PerformOnSites(c);
      }
    }
  }

  /** A fresh inferior with a site and a watchpoint at one address, both disabled. */
  method BothAt(program: Space, address: nat) returns (inferior: Inferior, site: Site, watch: Watch)
    requires WholePages(program) && address in program
    ensures fresh(inferior) && fresh(site) && fresh(watch)
    ensures inferior.Valid() && inferior.sites == [site] && inferior.watches == [watch]
    ensures site.address == watch.address == address && !site.enabled && !watch.enabled
    ensures AnySlotFree(inferior.debug[inferior.current])
  {
    var file := DebugFile([0, 0, 0, 0], seq(64, b => false));
    assert View(file, 0) == Off;
    inferior := new Inferior(program, {1}, 1, file);
    var s := inferior.CreateSite(1, address, false);
    var w := inferior.CreateWatch(1, address, Mode.Write, 1);
    site, watch := s.value, w.value;
  }

  /**
    A watchpoint at the address of a disabled site: when its slot triggers, the
    search by address names the site.
   */
  method WatchHiddenBySite(program: Space, address: nat) returns (inferior: Inferior, slot: int, r: Option<Owner>)
    requires WholePages(program) && address in program
    ensures slot in inferior.owner && inferior.owner[slot].WatchOwner?
    ensures r.Some? && r.value.SiteOwner? && !r.value.site.enabled
  {
    var site, watch;
    inferior, site, watch := BothAt(program, address);
    assert watch in inferior.watches && site in inferior.sites;
    slot := inferior.Arm(watch);
    r := inferior.CurrentHardwareStoppoint(slot);
  }
}
