# Verified models of gsdb

gsdb is a ptrace debugger for x86-64 Linux.  This project models the small
abstract machines inside it in Dafny and proves what they keep: the all-stop
protocol between debugger and kernel, the traps patched into the inferior's
memory, the debug-register allocator, the byte machines that read DWARF, the
layout of an inferior call and the assembly of a variable from location pieces.

`dafny verify dfyconfig.toml` checks everything.

| file | contents |
|---|---|
| `Options.dfy` | a value that may be missing |
| `AllStop.dfy` | the kernel's threads as a nondeterministic step system; `process`'s thread table, wait, stop and resume loops |
| `Memory.dfy` | `read_memory` and `write_memory` over page-granular memory |
| `DebugRegisters.dfy`, `StopPoints.dfy` | DR7 as bits, and as the processor reads them; breakpoint sites, watchpoints and their collections over memory and debug registers |
| `StopBoard.dfy` | the stop points as the user sees them, and what each command does to them |
| `Leb128.dfy` | the cursor's LEB128 and fixed-width readers, the numbers that bytes stand for, and encoders |
| `TreeWalk.dfy`, `TreeLayout.dfy`, `EntryReader.dfy`, `DieTree.dfy` | child iterator, serialised entry trees, `parse_die`, `skip_form` and references |
| `LineTable.dfy` | the line-number program, run lazily and eagerly; lookup by address |
| `CallFrame.dfy`, `EhHeader.dfy` | the call-frame interpreter; the `.eh_frame_hdr` search |
| `IndexWalk.dfy`, `FunctionIndex.dfy` | the walk over the entries up to where it throws; the lazily filled function and variable index |
| `EntryPaths.dfy` | entries by their paths from a unit's root, and the indexes in these terms |
| `ParameterClasses.dfy`, `AbiClasses.dfy`, `MisclassifiedTypes.dfy` | parameter classes as the code finds them from type entries, and as the ABI defines them; classes on which they part |
| `ClassChecks.dfy` | the searches for non-trivial classes and unaligned fields |
| `CallLayout.dfy`, `InferiorCall.dfy` | register and stack placement; the loops of `setup_arguments` and the pushed return address |
| `ArgumentsFound.dfy` | for each argument, what the callee is to find and where |
| `StackArrival.dfy`, `CallArrival.dfy`, `SlotSizes.dfy` | the stack byte by byte once all is written; what of an argument the callee finds, and where the ABI has it; arguments larger than their slots |
| `Bits.dfy`, `Pieces.dfy` | buffers bit by bit; `memcpy_bits` and piece assembly |

## Assumptions

- The kernel is an environment.  Between any two requests of the debugger, any
  number of spontaneous steps happens: a queued SIGSTOP is delivered, a thread
  stops on another signal, clones or dies (`Kernel.Apply`).  SIGSTOPs come only
  from `stop_running_threads` and from the first stop of a cloned thread, and a
  thread's SIGSTOP queue holds one signal.
- Breakpoint handlers, system-call filters and whatever else `handle_signal`
  calls choose freely, and may throw.
- Memory is mapped in whole pages below the end of user space.  Between the
  debugger's steps the running inferior may change any byte that is not armed.
- A word that PTRACE_POKEDATA cannot write whole is not written at all.
- A line-table header declares no standard opcodes beyond the twelve, which
  `parse_line_table` compares with its own table.
- Every thread's debug registers start out equal, with all four slots free.
- A read past the end of a buffer, a shift by 64 or more and an index past the
  end of an array have no defined result: functions give `None` there, methods
  report failure.
- The processor decodes DR7 as section 17.2.4 of volume 3 of the Intel 64 manual
  says; I/O breakpoints are not in use.
- The abbreviation table, the line-table header, the search table and a CIE's
  fields are given as parsed values.

## Where the code differs from its documentation or from the standard

Each difference has a lemma or method with a failing input and a statement of the
exact condition.

- Call frames, section 6.4.2 of the DWARF 4 standard.  Rules are inserted only
  where a register has none (`SecondOffsetIsLost`); restoring a register without a
  rule in the CIE throws (`RestoreWithoutCieRuleFails`); expression and
  val_expression are exchanged (`ExpressionBecomesValue`); register numbers and the
  offset of DW_CFA_def_cfa are cut to 32 bits (`WideOffsetIsCut`); other opcodes
  are skipped without operands (`UnknownOpcodeIsSkipped`); an undefined CFA is
  register 0 with offset 0 (`UnwindMatchesStandardTable`).
  `CallFrame.CodeIsStandardIff` has the exact condition.
- Line programs, section 6.2.5.  DW_LNS_set_isa does not read its operand
  (`IsaOperandBecomesRow`), an unknown extended opcode throws instead of being
  skipped (`UnknownExtendedThrows`), and the length of a known one is not looked at
  (`LengthIsIgnored`): `LineTable.CodeIsStandardIff`.  The iterator runs past the
  program unless the last instruction emits a row: `LineTable.Iterate`,
  `TrailingInstructionIsFatal`.
- Attribute forms, section 7.5.4.  `skip_form` knows neither DW_FORM_ref8 nor
  DW_FORM_ref_sig8, so that an entry with an attribute in one of them cannot be
  parsed: `DieTree.SkipsExactly`, `Ref8IsUnskippable`, `RefSig8IsUnreadable`.
  `as_reference` reads DW_FORM_udata and not DW_FORM_ref_udata, so that a child with
  children and such a DW_AT_sibling ends the iteration: `RefUdataSiblingIsRefused`.
  `DieTree.ChildrenOf` has the exact condition for both.
- The mask that clears a DR7 slot is computed in 32 bits.  For slot 3 its
  complement drops the upper half of DR7: `DebugRegisters.OutsideSurvivesIff`,
  `UpperHalfIsDropped`.
- `get_current_hardware_stoppoint` looks the address up among breakpoint sites
  first, so that a disabled site hides a watchpoint:
  `StopPoints.Inferior.CurrentHardwareStoppoint`, `WatchHiddenBySite`.
- Parameter classes, section 3.2.3 of the System V AMD64 ABI.  Scalars count where
  they start, so that an array that starts off an eightbyte boundary and crosses it
  is overlooked in the second eightbyte (`FloatsAreOverlooked`); enumerations,
  pointers to members and 16-byte integers get no class (`EnumIsOverlooked`); an
  array of classes has the classes of one element as if it started an eightbyte
  (`ArrayOfClassesIsMisplaced`).  The members of a class and the elements of an array
  are looked up in the type's own entry, so that a typedef, const or volatile hides
  them (`TypedefIsOverlooked`, `VectorIsOverlooked`), and with them a copy constructor
  (`TypedefHidesConstructor`).  Members without a location, as a union may have them,
  and base classes are skipped (`UnionIsOverlooked`, `BaseIsOverlooked`), and the
  location of a bit field is dropped (`BitFieldIsMisplaced`).
  `AbiClasses.HasAbiClassesIff` has the exact condition for all of these together.
- What has no class is passed in no register (`CallArrival.ArrivesIff`,
  `FloatsDoNotArrive`, `EnumDoesNotArrive`), and a class without any goes on the stack,
  where the ABI has a register for it (`TypedefGoesOnStack`) or passes nothing
  (`EmptyClassTakesSlot`): `CallArrival.PlacedAsAbiIff`.
- A reference type without `DW_AT_byte_size` has the size of what it refers to:
  larger than two eightbytes, the register loop reads past the two classes
  (`ParameterClasses.RegisterClassesFit`, `UndeclaredReferenceIsLarge`).  Of size
  zero, as for a class that is only declared, the pointer is passed in no register
  (`CallArrival.UnsizedReferenceDoesNotArrive`) or gets no room on the stack.
- A stack argument larger than its slot is overwritten by the next one past the slot
  (`SlotSizes.OutgrownIsOverwritten`, `SeventhReferenceIsLost`,
  `ObjectForPointerIsOverwritten`), or written over the caller's frame
  (`SeventhReferenceHitsFrame`): `CallArrival.ArrivesIff` and
  `StackArrival.FrameUntouchedIff` have the exact conditions.  `SlotSizes.SlotsFitIff`
  says which arguments are: a reference of size zero, an object of more than eight
  bytes for a pointer, which overload resolution accepts because it strips pointers
  before it compares types, and anything for a type of size zero.
- `setup_arguments` does not skip the red zone of section 3.2.2 of the ABI:
  `InferiorCall.RedZoneIff`, `EveryCallMeetsRedZone`, `EmptyCallMeetsRedZone`.
- An error thrown while `step_instruction` waits leaves the site at pc disabled:
  `StopPoints.Inferior.StepInstruction`.
- `index()` takes an empty function index as a sign that nothing was indexed, so
  that a program without named functions gets its variables indexed again by each
  lookup: `FunctionIndex.VariablesOnceIff`, `VariableIndexedTwice`.  It takes any
  other index for a complete one, so that after an error midway later lookups
  silently miss functions: `AnswersCompleteIff`, `PartialIndexIsKept`.

## Model

| member | source | states |
|---|---|---|
| `Kernel.EvolveIsLater` | src/process.cpp:289-357 | any number of spontaneous kernel steps keeps stopped and dead threads as they are, keeps the count of outstanding SIGSTOPs of the rest, and adds only threads waiting in their first stop |
| `AllStop.LaterKeepsConsistent` | src/process.cpp:202-485 | no kernel run, however long, breaks the agreement of marks and pending flags with the kernel |
| `AllStop.Process.AwaitThread` | src/process.cpp:202-210 | a wait on one thread with a report or SIGSTOP due returns that thread's report, whatever runs meanwhile |
| `AllStop.Process.SwallowPendingSigstop` | src/process.cpp:202-210 | the pending SIGSTOP is delivered and collected: flag and queue are both clear and no other thread's entry changes |
| `AllStop.Process.StepOverBreakpoint` | src/process.cpp:212-234 | the table stays consistent and the thread is ready to continue, unless it died under the step |
| `AllStop.Process.SendContinue` | src/process.cpp:236-248 | succeeds exactly on a stopped thread, and then moves mark, state and kernel together; a refusal changes nothing |
| `AllStop.Process.ResumeAllThreads` | src/process.cpp:250-260 | every tracked thread is marked running and the table is consistent, unless a request is refused |
| `AllStop.Process.Resume` | src/process.cpp:262-266 | resuming one stopped thread marks it running, leaves the other entries and gives a consistent table, unless a request is refused |
| `AllStop.Process.HandleSignal` | src/process.cpp:289-357 | tracking of new threads, restart on their first stop and on a swallowed SIGSTOP, a throw at every point where a callback or notification is made, and no change to any other thread; what is reported is the report itself, a system-call stop as SIGTRAP |
| `AllStop.Process.CollectStop` | src/process.cpp:359-374 | a running thread is asked to stop at most once and its report collected without hanging; a SIGSTOP is sent exactly if none is pending |
| `AllStop.Process.StopThread` | src/process.cpp:359-390 | the thread ends up not running, its pending flag is set exactly if a SIGSTOP is still outstanding, and its entry holds the reason that the kernel reported of it; the other stopped threads are as before |
| `AllStop.Process.StopRunningThreads` | src/process.cpp:359-390 | no thread is left running, the table is consistent, the entry of each thread stopped here holds what the kernel reported of it, and threads that were not running stay as they are; it fails only if a callback throws |
| `AllStop.Process.CleanupExitedThreads` | src/process.cpp:401-424 | exactly the dead threads other than the reporting one are dropped, and the leader's end is what is reported |
| `AllStop.CleanupLeavesAllStopped` | src/process.cpp:401-424 | with nothing running, dropping the dead leaves every tracked thread stopped in the kernel too |
| `AllStop.Process.WaitOnSignal` | src/process.cpp:426-485 | in every run, when a stop is returned no kernel thread runs, every tracked thread is marked stopped and is stopped, and the thread named and made current is the one whose report waitpid returned last, with the signal that the kernel reported of it, also in its entry, and no SIGSTOP of the protocol; an end that is returned is the leader's own, as the kernel reported it; a rethrown error leaves the raw report in the thread's entry; it fails only after a refusal or a throw, and blocks only if a wait never returns |
| `AllStop.Process.CollectMainStop` | src/process.cpp:426-451 | whatever thread reports first, known or new, or the one waited for, its entry can be settled, restarted or rethrown without breaking the rest, and what is reported is what the kernel reported of it |
| `AllStop.Process.TreatMainStop` | src/process.cpp:426-451 | after handle_signal on the main stop the thread is tracked, and its entry fits what follows: continue, report or rethrow |
| `AllStop.MainStopFacts` | src/process.cpp:289-357 | a report from an untracked thread is its first stop; a SIGSTOP from a tracked one is a pending one |
| `AllStop.Process.ReportStop` | src/process.cpp:475-485 | a stop is reported only once everything stands still, of the thread it came from and with its reason, or the leader's end in its place; that thread is current |
| `AllStop.Process.Conclude` | src/process.cpp:401-485 | once nothing runs, dropping the dead and reporting leaves an all-stop, the thread of the stop current and its reason in its entry; the leader's end is reported as the kernel told it |
| `AllStop.Process.Rethrow` | src/process.cpp:440-451 | an error thrown by handle_signal goes on only after the others are stopped; entry and state hold the raw report of the thread that caused it, which is current |
| `AllStop.Process.StepInstruction` | src/process.cpp:658-683 | single stepping ends in an all-stop with the same guarantees; the site taken out of the way is in StopPoints |
| `AllStop.Process.Session` | src/process.cpp:202-485 | over any sequence of commands every state in between is consistent: a live thread's pending flag is true exactly when one SIGSTOP is outstanding; each command has resumed what it is to resume or returned from its wait; each stop reported is an all-stop and names the current thread with the reason the kernel reported; the sequence is cut short only by a refusal, a throw or a wait that does not return |
| `AllStop.Process.Debug` | src/process.cpp:550-565 | the same from a launch on, which first waits for the exec trap |
| `AllStop.Process.Execute` | src/process.cpp:250-266 | each command does what it is for, keeps the table consistent and reports truthfully, unless it fails or blocks |
| `Memory.SplitAtPages` | src/process.cpp:714-725 | the chunks are non-empty, tile the request in order and never cross a 4096-byte page |
| `Memory.ReadMemory` | src/process.cpp:689-733 | the result is what reading byte by byte gives, zeros after the first unmapped byte; an error exactly if the first byte is unmapped |
| `Memory.GatherIsReadBytes` | src/process.cpp:714-730 | gathering non-empty chunks that cross no page is reading byte by byte |
| `Memory.ChunkAllOrNothing` | src/process.cpp:714-725 | a chunk inside one page is mapped whole or not at all |
| `Memory.WriteMemory` | src/process.cpp:735-760 | changes exactly the target bytes despite whole-word stores; succeeds exactly if every touched word is mapped, and otherwise leaves a prefix of whole words |
| `Memory.StoreOneMoreWord` | src/process.cpp:738-759 | a word completed with what memory holds extends the stored prefix and nothing else |
| `Memory.ComposeWord` | src/process.cpp:739-752 | the tail word is the remaining data followed by the bytes already there |
| `Memory.ReadBack` | src/process.cpp:689-760 | reading back what was written returns it |
| `DebugRegisters.ClaimFrames` | src/process.cpp:788-833 | claiming a slot enables it with its mode and size, and the other slots read as before |
| `DebugRegisters.FieldsDecode` | src/process.cpp:70-102 | the two-bit fields for a mode and a size are those that the processor takes for the accesses of that mode and for that many bytes |
| `DebugRegisters.ReleaseFrames` | src/process.cpp:835-854 | clearing a slot disables it and the others read as before |
| `DebugRegisters.OutsideSurvivesIff` | src/process.cpp:788-854 | bits outside the slot survive exactly if the slot is not 3 or the upper half of DR7 is zero |
| `DebugRegisters.UpperHalfIsDropped` | src/process.cpp:835-854 | a set bit of the upper half is lost exactly when slot 3 is cleared |
| `DebugRegisters.ReleaseUndoesClaim` | src/process.cpp:788-854 | clearing a claimed slot restores DR7 |
| `DebugRegisters.FindFreeSlot` | src/process.cpp:109-116 | the lowest slot with both enable bits clear, and none exactly if all four are taken |
| `StopPoints.WriteCommutesIff` | src/process.cpp:735-760 | a write through the traps is a write to the program exactly if it puts int3 wherever it meets an armed byte |
| `StopPoints.Inferior.SetHardwareStoppoint` | src/process.cpp:788-833 | succeeds exactly with a free slot and a legal size and then writes address and DR7 of that slot on all threads; a fifth request changes nothing; an illegal size leaves the address in the current thread's slot alone |
| `StopPoints.Inferior.ClearHardwareStoppoint` | src/process.cpp:835-854 | the slot's address and bits are cleared on all threads |
| `StopPoints.Inferior.ClaimSlot` | src/process.cpp:788-833 | the slot shows address, mode and size, all other slots are untouched, all threads stay equal |
| `StopPoints.Inferior.ReleaseSlot` | src/process.cpp:835-854 | the slot shows nothing, all other slots are untouched, all threads stay equal |
| `StopPoints.Inferior.ArmTrap` | src/breakpoint_site.cpp:67-92 | memory stays the program overlaid with int3 at exactly the enabled software sites, this one now among them |
| `StopPoints.Inferior.DisarmTrap` | src/breakpoint_site.cpp:99-117 | the same with this one taken out, also when sites share a word |
| `StopPoints.Inferior.Enable` | src/breakpoint_site.cpp:61-92 | succeeds exactly if already enabled, or a slot is free, or the word is mapped; otherwise nothing changes; the invariant holds |
| `StopPoints.Inferior.Disable` | src/breakpoint_site.cpp:94-117 | the site is disabled and what it held is free again, its address alone is disarmed; the invariant holds |
| `StopPoints.Inferior.EnableWatch` | src/watchpoint.cpp:39-47 | succeeds exactly with a free slot, which then belongs to the watchpoint alone |
| `StopPoints.Inferior.DisableWatch` | src/watchpoint.cpp:49-56 | the slot is given back and no other stop point is affected |
| `StopPoints.Inferior.SlotTriggersIff` | src/process.cpp:788-854 | on every thread, the processor traps because of a slot on exactly the accesses and bytes that the stop point owning the slot is for |
| `StopPoints.Inferior.TrapsIff` | src/process.cpp:788-854 | so it traps exactly on the accesses that some enabled hardware stop point is for |
| `StopPoints.Inferior.SlotLeftIff` | src/process.cpp:109-116 | a debug register is free exactly if fewer than four hardware sites and watchpoints are enabled |
| `StopPoints.Inferior.SiteAt` | include/libgsdb/stoppoint_collection.hpp:113-127 | finds a site at the address exactly if there is one |
| `StopPoints.Inferior.SiteWithId` | include/libgsdb/stoppoint_collection.hpp:100-110 | finds the first site with the id exactly if there is one |
| `StopPoints.Inferior.CreateSite` | src/process.cpp:636-656 | refused exactly if the address has a site; the new site is disabled and the invariant holds |
| `StopPoints.Inferior.CreateWatch` | src/watchpoint.cpp:19-37 | refused exactly for a taken address, an illegal size, an unaligned address, an execute watch of more than a byte, or an address that cannot be read |
| `StopPoints.Inferior.RemoveSite` | include/libgsdb/stoppoint_collection.hpp:181-200 | the site is disabled and erased, the others stay in order, and the invariant holds |
| `StopPoints.Inferior.RemoveWatch` | include/libgsdb/stoppoint_collection.hpp:181-200 | the same for watchpoints |
| `StopPoints.Inferior.WriteThrough` | src/process.cpp:735-760 | a write that aims at no armed byte keeps the overlay, even if it stops halfway |
| `StopPoints.Inferior.ReadMemoryWithoutTraps` | src/process.cpp:762-775 | every armed byte of the range shows the program's byte; where the range is mapped the result is the program |
| `StopPoints.Inferior.StepOverBreakpoint` | src/process.cpp:212-234 | with an enabled site at pc the thread makes exactly one step, on the program with int3 at the armed addresses but its own and with no site in a debug register for it; without one it makes none; the invariant holds and the same sites are enabled afterwards; rearming cannot fail |
| `StopPoints.Inferior.StepInstruction` | src/process.cpp:658-683 | exactly one step is made, likewise; the invariant holds, and the same sites are enabled afterwards except that, if the wait throws, the one at pc stays disabled |
| `StopPoints.Inferior.ResumeAllThreads` | src/process.cpp:250-260 | exactly the threads at an enabled site make one step each, from their own pc and on the program's own instruction; each thread is asked to continue exactly once, each time with every enabled site armed, and the set of enabled sites is the same before and after |
| `StopPoints.Inferior.CurrentHardwareStoppoint` | src/process.cpp:936-963 | names the owner of the triggered slot exactly if that is a breakpoint site or no site lies at the watchpoint's address |
| `StopPoints.WatchHiddenBySite` | src/process.cpp:936-963 | an enabled watchpoint at the address of a disabled site: the site is named when the watchpoint triggers |
| `StopPoints.Inferior.Session` | src/process.cpp:636-871 | over any sequence of create, enable, disable, remove, step-over, single steps whose wait may throw, resume and unarmed writes, the stop points are those that the commands have on the board, where enabling asks for one of four slots or a mapped word; memory is the program with int3 at exactly the enabled software sites, all threads hold equal debug registers, enabled slots and live hardware stop points correspond one to one, and every single step was made on the program's own byte |
| `StopPoints.Inferior.Perform` | src/process.cpp:636-871 | the same for one command |
| `StopPoints.Inferior.CanEnableIff` | src/breakpoint_site.cpp:61-92 | what the board asks for a site to be enabled is what memory and debug registers allow |
| `Leb128.ReadGroups` | src/dwarf.cpp:84-95 | the or-and-shift loop computes the low 64 bits of the encoded number and stops right after its last byte |
| `Leb128.Uleb128` | src/dwarf.cpp:84-95 | refines the reader the round trips are about |
| `Leb128.Sleb128` | src/dwarf.cpp:97-133 | the same with sign extension, two's complement |
| `Leb128.OrGroup` | src/dwarf.cpp:88-94 | or-ing a shifted group into the 64-bit result is adding it modulo 2^64 |
| `Leb128.SignExtension` | src/dwarf.cpp:121-130 | filling the high bits gives the two's complement value |
| `Leb128.UnsignedRoundTrip` | src/dwarf.cpp:84-95 | decoding inverts encoding for every 64-bit value and consumes exactly the encoded bytes |
| `Leb128.SignedRoundTrip` | src/dwarf.cpp:97-133 | the same for every signed 64-bit value |
| `Leb128.PaddingIsIgnored` | src/dwarf.cpp:84-133 | a redundant padding byte changes neither value |
| `Leb128.UnsignedReadsBack` | src/dwarf.cpp:84-95 | any encoding of at most ten bytes, minimal or padded, reads as its value |
| `Leb128.SignedReadsBack` | src/dwarf.cpp:97-133 | the same, signed |
| `Leb128.FixedIsLittleEndian` | include/libgsdb/bit.hpp:21-26 | a fixed-width read is the little-endian number in its bytes |
| `TreeWalk.Increment` | src/dwarf.cpp:1016-1041 | whether it goes on after the attributes, follows DW_AT_sibling or walks the subtree, the iterator arrives right after the subtree; it throws exactly if it has to evaluate a sibling that cannot be read |
| `TreeWalk.Children` | include/libgsdb/dwarf.hpp:662-667 | iteration yields exactly the direct children, in order, up to their null entry, if and only if the iterator gets past each of them |
| `TreeWalk.SiblingsAreShortcuts` | src/dwarf.cpp:1016-1041 | the tree fits as well with every sibling attribute ignored and is then walked to the end, so both ways of iterating give the same children |
| `TreeLayout.SerialisedTreeFits` | src/dwarf.cpp:992-1041 | a preorder serialisation with null entries is found entry by entry at the places it was given |
| `EntryReader.EntryParses` | src/dwarf.cpp:478-508 | parsing an entry yields its code, its attributes' places, its sibling and the position after it, if and only if each of its attributes can be skipped |
| `EntryReader.OneMoreSpec` | src/dwarf.cpp:500-504 | the attribute loop, one step |
| `EntryReader.BlockedFails` | src/dwarf.cpp:500-504 | one attribute that cannot be skipped, wherever it is among them, makes the loop fail |
| `DieTree.SkipsExactly` | src/dwarf.cpp:135-197 | for a value laid out by section 7.5.4 of the DWARF 4 standard, through chains of DW_FORM_indirect, skip_form passes over exactly its bytes, or refuses it if and only if its form is then DW_FORM_ref8 or DW_FORM_ref_sig8 |
| `DieTree.LayoutsAgree` | src/dwarf.cpp:135-197 | for every form of section 7.5.4, skip_form has its layout, except that it knows neither DW_FORM_ref8 nor DW_FORM_ref_sig8 |
| `DieTree.ParseDie` | src/dwarf.cpp:478-508 | the loop collects the places that the specification gives the attributes |
| `DieTree.ReferenceAt` | src/dwarf.cpp:1148-1201 | as_reference of any whole value, wherever it stands: the little-endian number in the bytes of DW_FORM_ref1 to DW_FORM_ref8, that of DW_FORM_ref_addr less the unit's offset, the LEB128 number of DW_FORM_udata, and an error for every other form |
| `DieTree.ReferenceWidths` | src/dwarf.cpp:1148-1201 | as_reference reads as many bytes as section 7.5.4 gives the form |
| `DieTree.OneForm` | src/dwarf.cpp:191-193 | the bytes of a value through any chain of DW_FORM_indirect have one final form only |
| `DieTree.EntryReads` | src/dwarf.cpp:478-508 | the byte cursor reads back every entry with well-formed attribute values, or refuses it if one of them is in DW_FORM_ref8 or DW_FORM_ref_sig8; a sibling attribute is the position that its bytes stand for, or refused for its form |
| `DieTree.SerialisedUnitFits` | src/dwarf.cpp:478-508 | the bytes of a tree with well-formed attribute values parse to that tree, entries with an unskippable attribute to an error |
| `DieTree.ChildrenOf` | src/dwarf.cpp:992-1041 | from the bytes of any such tree, with siblings as the numbers in their bytes, the children iterated are the entries at the direct children's positions, in order, if and only if no entry parsed on the way has an attribute in DW_FORM_ref8 or DW_FORM_ref_sig8 and no entry with children that the iterator has to get past has a sibling it cannot read |
| `DieTree.ChildIsSerialised` | src/dwarf.cpp:992-1041 | the same holds at every entry below the root |
| `DieTree.RefusedForItsForm` | src/dwarf.cpp:1148-1201 | a whole value is refused for its form alone |
| `DieTree.RefUdataSiblingIsRefused` | src/dwarf.cpp:1165-1167 | a tree that is iterated with its sibling in DW_FORM_udata and not with the same bytes in DW_FORM_ref_udata |
| `DieTree.RefSig8IsUnreadable` | src/dwarf.cpp:135-197 | a child with a DW_AT_signature in DW_FORM_ref_sig8 ends the iteration |
| `DieTree.UnskippableReferenceIff` | src/dwarf.cpp:135-197 | of the references that as_reference reads, skip_form refuses exactly those of DW_FORM_ref8 |
| `DieTree.Ref8IsUnskippable` | src/dwarf.cpp:1162-1164 | eight bytes that are read as a reference and cannot be skipped |
| `LineTable.Iterator.Increment` | src/dwarf.cpp:1483-1498 | one increment yields the next row of the eager run, or the end |
| `LineTable.Iterate` | src/dwarf.cpp:1472-1498 | iteration yields exactly the rows of an eager run, if and only if the last instruction emits a row |
| `LineTable.TrailingInstructionIsFatal` | src/dwarf.cpp:1483-1498 | a program of one row and one more instruction, on which the iterator runs past the end |
| `LineTable.RestartAfterEndSequence` | src/dwarf.cpp:1566-1572 | after an emitted row the registers are the cleared ones, after end_sequence the initial ones |
| `LineTable.SequencesAreIndependent` | src/dwarf.cpp:1506-1605 | what follows an end_sequence yields the rows of a program of its own started from the initial registers |
| `LineTable.SpecialOpcodeDecodes` | src/dwarf.cpp:1590-1601 | the special opcode computed from an address and a line advance in range decodes to exactly these |
| `LineTable.CodeIsStandardIff` | src/dwarf.cpp:1506-1605 | every instruction does what sections 6.2.5.1 to 6.2.5.3 of the DWARF 4 standard, written out on their own, say of address, line, file, column, flags and rows, if and only if no DW_LNS_set_isa, no unknown extended opcode that could be skipped and no extended instruction whose operands end elsewhere than its length says is reached |
| `LineTable.StepIsStandardIff` | src/dwarf.cpp:1506-1605 | the same for one instruction |
| `LineTable.StandardAgrees` | src/dwarf.cpp:1515-1559 | the standard opcodes but DW_LNS_set_isa have their operands and effects of section 6.2.5.2; DW_LNS_const_add_pc needs a line range |
| `LineTable.ExtendedAgrees` | src/dwarf.cpp:1561-1589 | the extended opcodes have those of section 6.2.5.3, up to where they end |
| `LineTable.UnknownExtendedThrows` | src/dwarf.cpp:1587-1588 | an extended instruction of length one that the code refuses and the standard skips |
| `LineTable.LengthIsIgnored` | src/dwarf.cpp:1561-1572 | DW_LNE_end_sequence of length two: the code goes on inside the instruction, the standard after it |
| `LineTable.IsaOperandBecomesRow` | src/dwarf.cpp:1555-1556 | a program on which the operand of DW_LNS_set_isa is taken for DW_LNS_copy and emits a row |
| `LineTable.NeighboursEnclose` | src/dwarf.cpp:1607-1623 | where a sequence covers an address, two neighbouring rows enclose it |
| `LineTable.EntryByAddress` | src/dwarf.cpp:1607-1623 | found exactly if a sequence covers the address; with ascending addresses the row is the last one at or below it in its sequence, which is the only one if sequences do not overlap |
| `CallFrame.EarlyStopRow` | src/dwarf.cpp:1781-1804 | for every program, stopping once the location passes pc gives the rules of the row before the first row above pc |
| `CallFrame.EarlyStopIsTableLookup` | src/dwarf.cpp:1781-1804 | with non-decreasing locations that is the last row at or below pc of the whole table |
| `CallFrame.RowBeforeIsLast` | src/dwarf.cpp:1799-1804 | the row before the first one above pc is the last one at or below it |
| `CallFrame.ExecAgreesIff` | src/dwarf.cpp:686-857 | for every instruction of section 6.4.2 in every context, what the program makes of it and what the standard's own definition of location, CFA, rule and stack makes of it are the same exactly if it does not deviate: no rule is kept that the standard changes, no rule or register differs, no register without a CIE rule is restored, no CFA differs |
| `CallFrame.FetchRelates` | src/dwarf.cpp:686-857 | for every byte string, the program reads the standard's operands, with their factors and signs, up to numbers cut to 32 bits and the two exchanged expressions; it fails with the standard, except on opcodes the standard does not assign |
| `CallFrame.RestoresRemembered` | src/dwarf.cpp:843-854 | after a remember_state, any balanced stretch and its restore_state, rules, CFA and stack are those at the remember_state and the location is that of the stretch |
| `CallFrame.CodeIsStandardIff` | src/dwarf.cpp:686-857 | over a whole program, nested remember and restore included, the code has the context of the standard's own interpreter after every instruction exactly if no instruction reached deviates and no opcode is outside the standard |
| `CallFrame.SameRowsWhenNeverDeviating` | src/dwarf.cpp:686-857 | such programs give the same final context, the same context at pc and the same table |
| `CallFrame.SameEarlyStop` | src/dwarf.cpp:1781-1804 | for the context at pc it is enough that no instruction up to pc deviates |
| `CallFrame.SecondOffsetIsLost` | src/dwarf.cpp:712-716 | a two-instruction program on which the code keeps the first rule and the standard the second |
| `CallFrame.RestoreWithoutCieRuleFails` | src/dwarf.cpp:719-723 | DW_CFA_restore of a register without a rule in the CIE: the code throws, the standard goes back to no rule |
| `CallFrame.ExpressionBecomesValue` | src/dwarf.cpp:816-826 | DW_CFA_expression builds the rule of DW_CFA_val_expression |
| `CallFrame.WideOffsetIsCut` | src/dwarf.cpp:746-750 | DW_CFA_def_cfa changes its offset exactly from 2^32 on |
| `CallFrame.UnknownOpcodeIsSkipped` | src/dwarf.cpp:725-856 | an opcode outside the standard is taken for one without operands |
| `CallFrame.UnwindContext.ExecuteInstruction` | src/dwarf.cpp:686-857 | the in-place interpreter refines one step of the program that CodeIsStandardIff compares with the standard, errors included |
| `CallFrame.UnwindContext.Unwind` | src/dwarf.cpp:1781-1804 | the two loops compute the rules of the CIE program followed by the FDE program up to pc |
| `CallFrame.UnwindMatchesStandardTable` | src/dwarf.cpp:1781-1804 | where the standard's programs run through and never move backwards and no instruction up to pc deviates, the rules applied at pc are those of the standard's table in its last row at or below pc, with register 0 and offset 0 for a CFA that is undefined there |
| `CallFrame.TableInit` | src/dwarf.cpp:1781-1797 | starting with register 0 and offset 0 instead of an undefined CFA changes nothing else in a table that the standard gives a meaning to |
| `EhHeader.Search` | src/dwarf.cpp:1715-1763 | the search ends on every table; on a sorted one it fails exactly below the first address and otherwise picks the last row at or below the address; an empty one has no row |
| `EhHeader.FindFde` | src/dwarf.cpp:1769-1779 | search and range check accept pc exactly if some entry covers it, and return the only one that does |
| `FunctionIndex.Dwarf.IndexOwn` | src/dwarf.cpp:1415-1460 | what one entry contributes to the three indexes, up to where its name or a reference cannot be read |
| `FunctionIndex.Dwarf.IndexDie` | src/dwarf.cpp:1415-1470 | the recursion enters exactly what a preorder walk of the entry's tree selects up to the first entry, name, reference or sibling that cannot be read, and throws exactly if there is one |
| `FunctionIndex.Dwarf.IndexChildren` | src/dwarf.cpp:1462-1469 | the same for the loop over an entry's children, where reading a child or getting past it may throw |
| `FunctionIndex.Dwarf.IndexUnits` | src/dwarf.cpp:1386-1395 | the same for the loop over the compile units |
| `IndexWalk.UnitsBegin` | src/dwarf.cpp:1386-1470 | what a walk enters before it throws is a beginning of what it enters with everything readable |
| `FunctionIndex.Dwarf.Index` | src/dwarf.cpp:1386-1395 | the function and member indexes are those of one walk up to where it throws, after any number of calls; it throws exactly if a walk does and meets no function before |
| `FunctionIndex.Dwarf.FindFunctions` | src/dwarf.cpp:1370-1384 | throws exactly if a walk throws before it meets a function, and otherwise gives exactly the functions of that name that a walk meets before it throws, each once, however many lookups came before; if it leaves no function unmet, these are the subprograms and inlined subroutines with a range and that name at every path of child positions from a unit's root, each path once |
| `FunctionIndex.Dwarf.FindGlobalVariable` | src/dwarf.cpp:2238-2247 | throws likewise, or finds a variable of that name exactly if a walk meets one before it throws; with everything readable, exactly if one with a location stands at some path with no function above it |
| `EntryPaths.EveryEntryOnce` | src/dwarf.cpp:1386-1470 | a walk over readable entries makes the contributions of the entries at all paths from the units' roots, each once, in preorder |
| `EntryPaths.FunctionsByPath` | src/dwarf.cpp:1415-1431 | so the function index holds exactly the subprograms and inlined subroutines with a range and a name, wherever they stand |
| `EntryPaths.NamedByPath` | src/dwarf.cpp:1370-1384 | and a lookup those of its name |
| `EntryPaths.VariablesByPath` | src/dwarf.cpp:1450-1469 | the variable index holds exactly the variables with a location and a name that have no function above them |
| `EntryPaths.DefinitionsByPath` | src/dwarf.cpp:1433-1448 | the member index maps a declaration exactly if some function refers to it by DW_AT_specification or, without one, DW_AT_abstract_origin, and to the first such in preorder |
| `EntryPaths.CompleteIffFine` | src/dwarf.cpp:1386-1470 | a walk gets to the end if and only if every name, reference and entry that it reads, at whatever path, can be read |
| `FunctionIndex.AnswersCompleteIff` | src/dwarf.cpp:1386-1395 | after any number of lookups, a later one that does not throw gives all functions of the forest, whatever the name, if and only if no function comes after the first thing that cannot be read or none comes before it, in which case every lookup throws |
| `IndexWalk.CompleteIff` | src/dwarf.cpp:1370-1395 | what the walk meets has all functions of every name exactly if none is left unmet |
| `FunctionIndex.PartialIndexIsKept` | src/dwarf.cpp:1386-1390 | two compile units, the second unreadable: the first lookup of its function throws and the second answers that there is none |
| `FunctionIndex.WithKey` | src/dwarf.cpp:1373-1382 | every entry with the key as often as it is in the index, in any order |
| `FunctionIndex.VariablesOnceIff` | src/dwarf.cpp:1386-1395 | the variable index holds each entry once exactly if a function is indexed, or one lookup was made, or there are no variables |
| `FunctionIndex.VariableIndexedTwice` | src/dwarf.cpp:1386-1395 | one variable, no function and two lookups: the variable is indexed twice |
| `ParameterClasses.ClassifyClassField` | src/type.cpp:206-246 | the in-place merge refines the recursive classification, nested classes included; a class behind a typedef or qualifier adds nothing, and a bit field counts by its bit offset alone |
| `ParameterClasses.MembersMergeToStrongest` | src/type.cpp:181-246 | without long double, merging field after field gives each eightbyte the strongest class of what the code counts in it, in whatever order the fields come |
| `ParameterClasses.RecordClasses` | src/type.cpp:248-298 | a class of at most two eightbytes, possibly behind typedefs and qualifiers, gets the strongest classes of what its own entry's members contribute, memory for both if for one |
| `ParameterClasses.AliasKeepsScalar` | src/type.cpp:611-650 | a scalar, pointer or reference has the same classes behind a typedef or qualifier |
| `ParameterClasses.AliasIsTransparent` | src/type.cpp:740-797 | size, alignment and the search for unaligned fields see through typedefs and qualifiers |
| `AbiClasses.HasAbiClassesIff` | src/type.cpp:206-298 | a class without long double that the code classifies, possibly behind typedefs and qualifiers, with nested classes, arrays of classes, bases, bit fields and members without a location, gets the ABI's classes if and only if the ABI does not pass it by reference and it is larger than two eightbytes, or it has an unaligned scalar and goes to memory, or neither and in each eightbyte, for each scalar with bytes in it, one at least as strong is counted there and the other way round; where a scalar is counted is found from offsets, sizes and what hides it |
| `AbiClasses.CodeClasses` | src/type.cpp:586-658 | the code's classes of any type without long double are the strongest of what is counted in each eightbyte, or memory |
| `AbiClasses.CountedMoves` | src/type.cpp:231-245 | what is counted for a field that is not a class depends on nothing but the eightbyte in which it is taken to start |
| `AbiClasses.AliasedClassIff` | src/type.cpp:613-657 | a class or array behind a typedef or qualifier that does not go to memory gets the ABI's classes exactly if it has no data |
| `AbiClasses.NonTrivialIsByReference` | src/type.cpp:681-738 | what the code refuses as non-trivial for calls the ABI passes by reference |
| `ClassChecks.NonTrivialIff` | src/type.cpp:681-738 | where no typedef or qualifier hides a class and every member has a location, the search refuses exactly what the ABI passes by reference |
| `ClassChecks.AlignedIsFound` | src/type.cpp:740-797 | a type with members at offsets and scalars aligned to their size in which the code finds no unaligned field has none at any multiple of its alignment |
| `ClassChecks.UnalignedIff` | src/type.cpp:740-797 | so in such a class no unaligned scalar is missed, and without nested classes exactly those are found |
| `AbiClasses.FlatFieldIff` | src/type.cpp:231-245 | a scalar or array of scalars has bytes in an eightbyte in which it is not counted exactly if it gets no class, as an array behind a typedef or qualifier, or starts in the first eightbyte, is no array of more than eight bytes and reaches into the second; it is counted without bytes only if it has none |
| `AbiClasses.FlatCounted` | src/type.cpp:267-275 | an array of scalars of any dimension is counted where it starts, and in the second eightbyte if that is the first and it, or what it is made of, has more than eight bytes; not at all if it gets no class |
| `AbiClasses.FlatTouches` | src/type.cpp:267-275 | the scalars of an array cover its bytes without a gap |
| `MisclassifiedTypes.FloatsAreOverlooked` | src/type.cpp:231-245 | struct { int i; float f[2]; } gets (INTEGER, NO_CLASS) where the ABI has (INTEGER, SSE) |
| `MisclassifiedTypes.EnumIsOverlooked` | src/type.cpp:613-657 | struct { long x; enum E e; } gets (INTEGER, NO_CLASS) where the ABI has (INTEGER, INTEGER) |
| `MisclassifiedTypes.ArrayOfClassesIsMisplaced` | src/type.cpp:267-275 | struct { float x; struct { float a; int b; } s[1]; } gets (INTEGER, NO_CLASS) where the ABI has (SSE, INTEGER) |
| `MisclassifiedTypes.TypedefIsOverlooked` | src/type.cpp:276-286 | struct { long a; } gets (INTEGER, NO_CLASS), and (NO_CLASS, NO_CLASS) behind a typedef, where the ABI has the former for both |
| `MisclassifiedTypes.VectorIsOverlooked` | src/type.cpp:267-275 | typedef float vec2[2]; struct { vec2 v; } gets no class where the ABI has (SSE, NO_CLASS) |
| `MisclassifiedTypes.UnionIsOverlooked` | src/type.cpp:276-286 | union { long a; double d; } with members that have no location gets no class where the ABI has (INTEGER, NO_CLASS) |
| `MisclassifiedTypes.BaseIsOverlooked` | src/type.cpp:276-286 | struct D : B { long b; } with one long in B gets (NO_CLASS, INTEGER) where the ABI has (INTEGER, INTEGER) |
| `MisclassifiedTypes.BitFieldIsMisplaced` | src/type.cpp:210-222 | struct { long a; int b : 3; } gets (INTEGER, NO_CLASS) where the ABI has (INTEGER, INTEGER) |
| `MisclassifiedTypes.TypedefHidesConstructor` | src/type.cpp:310-313 | a class that is refused for its copy constructor is accepted behind a typedef of another name or a qualifier |
| `ParameterClasses.X87FreeIsPlain` | src/type.cpp:586-658 | no type without long double gets an x87 class, and memory takes both eightbytes or none |
| `ParameterClasses.RegisterClassesFit` | src/type.cpp:586-658 | a type with a register class is larger than two eightbytes exactly if it is a reference without a size to a larger type, or with a larger size |
| `ParameterClasses.UndeclaredReferenceIsLarge` | src/type.cpp:359-412 | such a reference exists |
| `CallLayout.RoundsUp` | src/target.cpp:286-289 | the mask rounds up to the next multiple of eight |
| `CallLayout.MaskAligns` | src/target.cpp:323 | clearing the low k bits gives the last multiple of 2^k at or below the address |
| `CallLayout.CountersMatch` | src/target.cpp:332-378 | the register counters stay within 6 and 8 and equal the number of values placed |
| `CallLayout.DecideDecides` | src/target.cpp:338-353 | the decisions of the layout are those of the loop: on the stack exactly if no register is needed or too few are left |
| `CallLayout.OnStackIff` | src/target.cpp:345-353 | a parameter goes on the stack exactly if it has no register class, or too few are left for it of the six integer registers, less the one for the return slot, or of the eight SSE registers, after what earlier parameters put there |
| `CallLayout.X87FreeIsSupported` | src/target.cpp:354-367 | the register loop reports no error for a register-class parameter without long double and without an oversized reference |
| `CallLayout.SpillsDescend` | src/target.cpp:312-330 | arguments copied for references lie one below the other under the old stack pointer |
| `CallLayout.SpillIsAligned` | src/target.cpp:322-323 | each is aligned as its type asks |
| `CallLayout.SlotsAscend` | src/target.cpp:385-390 | stack arguments lie one above the other, each in its own slot |
| `CallLayout.SlotIsAligned` | src/target.cpp:380-390 | each slot starts on a multiple of eight |
| `CallLayout.LayoutSeparated` | src/target.cpp:312-390 | all bytes written are pairwise disjoint and lie between the new and the old stack pointer, which is a multiple of sixteen |
| `StackArrival.OwnWrite` | src/target.cpp:385-390 | a parameter passed on the stack is written whole to its own slot |
| `CallLayout.OwnSpill` | src/target.cpp:320-327 | an argument copied for a reference is written where the passed pointer points |
| `CallLayout.BytesReadBack` | src/target.cpp:313-327 | the eight bytes passed for an address read back as that address |
| `InferiorCall.Machine.SpillReferences` | src/target.cpp:307-330 | the first loop refines the layout: copies written, stack pointer moved, and for each reference the little-endian address of the argument, or of its copy if it lives nowhere, in place of its bytes |
| `InferiorCall.Machine.PlaceInRegisters` | src/target.cpp:354-376 | the eightbytes of one parameter go to the next registers of their classes; an error exactly on an unsupported class or a third eightbyte |
| `InferiorCall.Machine.PlaceNext` | src/target.cpp:332-378 | one parameter is set aside whole for the stack, or its INTEGER and SSE eightbytes go to the next registers |
| `InferiorCall.Machine.PlaceArguments` | src/target.cpp:332-378 | the integer and SSE registers hold, in order and each once, the INTEGER and SSE eightbytes of the parameters passed in them; untouched registers keep their values |
| `InferiorCall.Machine.ReserveSlots` | src/target.cpp:380-383 | the stack pointer is a multiple of sixteen, below all slots and by less than sixteen more than they need |
| `InferiorCall.Machine.FillSlots` | src/target.cpp:385-390 | the slots are written from the bottom up; an error exactly if one is not writable |
| `InferiorCall.Machine.LayOut` | src/target.cpp:307-397 | the whole of setup_arguments on described types refines the layout |
| `InferiorCall.Machine.SetupArguments` | src/target.cpp:260-397 | succeeds exactly if types classify, the return slot is there when needed, every register parameter is supported and every byte is writable; then registers, rax, rsp and memory are the layout's, and for every parameter the callee finds the argument's own bytes or a pointer to it, as in Enter |
| `InferiorCall.Machine.PushReturnAddress` | src/process.cpp:1033-1042 | eight bytes lower, with the return address there |
| `InferiorCall.Machine.Enter` | src/target.cpp:483-485 | setting up a call and entering the function goes through exactly if setup_arguments does and the return address is writable; then, for every parameter, the registers of its classes after those of earlier parameters, or its slot, hold the argument's bytes if it is no reference, and otherwise, read as a little-endian number, the argument's own address, or one at which memory holds the argument's bytes if it has none; the return slot's address is in the first register exactly if the result is returned in memory; and, where there is room, the callee sees all that CalleeFindsBytes states and, if stack arguments fit their slots, all that CalleeFinds does |
| `InferiorCall.LaidOutIsFound` | src/target.cpp:260-397 | whatever call is laid out, the callee finds for every parameter what it is to be passed |
| `ArgumentsFound.SeenIsFound` | src/target.cpp:307-390 | registers and memory as the layout has them show each argument: itself, its address or that of its copy |
| `ArgumentsFound.PassedMeans` | src/target.cpp:313-327 | what is passed for a reference reads as the argument's address, or that of its copy on the stack |
| `ArgumentsFound.ReferenceInRegister` | src/target.cpp:313-376 | a reference passed in a register: the register, read as a number, is the argument's address or that of its bytes in memory |
| `ArgumentsFound.SlotsFromBottom` | src/target.cpp:380-390 | the first stack argument is at the stack pointer the function is called with, and each next one at the first eightbyte boundary after the one before |
| `InferiorCall.CalleeFinds` | src/target.cpp:260-397 | rsp + 8 is a multiple of sixteen, the return address is at rsp, every stack argument and every copied argument is whole in its own place, and nothing outside the new part of the stack has changed |
| `InferiorCall.CalleeFindsBytes` | src/target.cpp:260-397 | the same without asking that stack arguments fit their slots: the return address, each stack byte that no later argument is written over and each copied byte that no stack argument reaches are in place, and no byte outside the new part of the stack has changed that no stack argument reaches |
| `InferiorCall.CalleeFindsInRegisters` | src/target.cpp:354-376 | a parameter not on the stack has its eightbytes of a class in registers of its own, after those of the parameters before it |
| `CallArrival.ArrivesIff` | src/target.cpp:345-390 | what the callee finds in registers and in memory determines given bytes of an argument if and only if, on the stack, no later stack argument is written over any of them, and in registers, each is in an eightbyte that the size counts and that has class INTEGER or SSE |
| `CallArrival.ParameterArrivesIff` | src/target.cpp:345-376 | the same for the bytes of a parameter type that belong to a field, or all bytes of a passed pointer |
| `StackArrival.OverwrittenIff` | src/target.cpp:385-390 | a byte of a stack argument lies in the slots where a later one is written, found from slot sizes and data sizes, exactly if a later write of the call covers its address |
| `StackArrival.StackByteShows` | src/target.cpp:385-390 | if not, memory holds it in its slot once all is written |
| `StackArrival.OverwrittenIsLost` | src/target.cpp:385-390 | if so, it can change and no byte of the resulting memory changes |
| `StackArrival.FittingIsIntact` | src/target.cpp:380-390 | a byte inside its argument's slot is never overwritten |
| `StackArrival.SpillByteShows` | src/target.cpp:320-327 | a byte copied for a reference stands where the pointer points unless a stack argument reaches it |
| `StackArrival.FrameUntouchedIff` | src/target.cpp:380-390 | whatever the caller's frame holds, a call leaves it as it is if and only if each stack argument that has data ends at or below the caller's stack pointer |
| `SlotSizes.SlotTooSmallIff` | src/target.cpp:312-353 | what is passed for an argument that overload resolution accepts is larger than its slot exactly if the parameter is a reference of size zero, or a pointer and the argument an object of more than eight bytes, or has size zero and the argument has not |
| `SlotSizes.SlotsFitIff` | src/target.cpp:312-353 | so the stack arguments of a typed call all fit exactly if none is such a case |
| `SlotSizes.OutgrownIsOverwritten` | src/target.cpp:385-390 | the stack argument after one that is larger than its slot is written over what lies past the slot: no byte that it reaches is found |
| `SlotSizes.SeventhReferenceIsLost` | src/target.cpp:345-390 | six longs, a reference to a class without a size and a long: no byte of the pointer is found |
| `SlotSizes.ObjectForPointerIsOverwritten` | src/target.cpp:345-390 | six longs, a pointer given an object of 16 bytes and a long: no byte of the object's second half is found |
| `SlotSizes.SeventhReferenceHitsFrame` | src/target.cpp:380-390 | six longs and such a reference, with rsp a multiple of sixteen: the stack pointer does not move and the pointer is written to the eight bytes at it, the caller's own |
| `CallArrival.NotCarriedIsLost` | src/target.cpp:363-364 | any other byte can change and nothing the callee finds changes |
| `CallArrival.AbiClassesArrive` | src/target.cpp:354-376 | a class in registers with the ABI's classes arrives whole |
| `CallArrival.PlacedAsAbiIff` | src/target.cpp:345-376 | whatever registers are taken, a class goes where the ABI passes it if and only if it has data and its classes are the ABI's, or the ABI's are memory and it has no register class |
| `CallArrival.AliasedClassGoesOnStack` | src/target.cpp:345-353 | a class or array behind a typedef or qualifier goes on the stack in every call |
| `CallArrival.TypedefGoesOnStack` | src/target.cpp:345-353 | typedef struct { long a; } T does, though the ABI has a register for it |
| `CallArrival.EmptyClassTakesSlot` | src/target.cpp:345-353 | an empty class, for which the ABI passes nothing, takes eight bytes of the stack in every call |
| `CallArrival.FloatsDoNotArrive` | src/target.cpp:363-364 | struct { int i; float f[2]; } in registers: its second float is passed nowhere |
| `CallArrival.EnumDoesNotArrive` | src/target.cpp:363-364 | struct { long x; enum E e; } in registers: its enumeration is passed nowhere |
| `CallArrival.UnsizedReferenceDoesNotArrive` | src/target.cpp:354-376 | a reference to an incomplete class without a size: its pointer is passed nowhere |
| `InferiorCall.RedZoneIff` | src/process.cpp:1033-1042 | the return address is written into the caller's red zone exactly if the callee's stack pointer is less than 128 bytes below the caller's |
| `InferiorCall.SmallCallMeetsRedZone` | src/target.cpp:380-383 | it is for every call whose arguments need less than 113 bytes |
| `InferiorCall.EveryCallMeetsRedZone` | src/target.cpp:312-390 | every call for which there is room writes into the red zone if each copied argument has data and leaves less than 128 bytes unused, alignment included, and each stack argument leaves at most 112 bytes of its slot unused, and none if it has no data |
| `InferiorCall.FullCallMeetsRedZone` | src/target.cpp:312-390 | so does every call with arguments as large as their types, copied ones aligned to at most 128 bytes |
| `InferiorCall.EmptyCallMeetsRedZone` | src/process.cpp:1033-1042 | a call without arguments writes into the red zone |
| `Pieces.MemcpyBits` | include/libgsdb/bit.hpp:55-71 | exactly the n destination bits become the source bits, all others stay |
| `Pieces.WithBitOnly` | include/libgsdb/bit.hpp:59-69 | clearing and setting through masks changes one bit |
| `Pieces.BitsDetermine` | include/libgsdb/bit.hpp:55-71 | a buffer is determined by its bits |
| `Bits.ByteCopyIsBitCopy` | src/target.cpp:995-999 | copying whole bytes is copying their bits |
| `Bits.CopiedWindow` | src/target.cpp:984-1007 | copying what there is of a source right after the bits so far puts the piece there, zeros past the source's end |
| `Pieces.PlacePiece` | src/target.cpp:995-1005 | the byte-copy path and the bit-by-bit path both append the piece's bits and leave zeros after them |
| `Pieces.Assemble` | src/target.cpp:978-1008 | the result is the concatenation of the pieces' bits, each bit where its piece and offset put it, with all remaining bits zero; an error exactly if a piece cannot be read, the pieces exceed the variable, or a bit-by-bit copy would read past the end of its source |
| `Pieces.AssembledBits` | src/target.cpp:984-1007 | bit k of the result is the bit of the piece it falls into, counted from that piece's offset in its source; zero past the source's end and past the last piece |
| `Pieces.SourceMeans` | src/target.cpp:938-990 | what a piece is read from: a register or data whole, memory for the least number of bytes that hold the piece's bits, a literal filled up with zeros, and an error for an empty location |
| `Bits.JoinedShows` | src/target.cpp:984-1007 | joined windows of bits, filled up with zeros, show each bit of each window in its place |

## Left out

- ptrace, waitpid, fork, exec, procfs, pipes and mmap themselves: kernel steps and byte memory stand for them.
- Exit of the whole thread group while threads are stopped, and a SIGKILL to a stopped thread: a stopped thread stays stopped in the model.
- A SIGSTOP sent from outside (Ctrl-C) and the SIGSTOP of attach.
- A request to swallow, step or resume a thread that is not stopped: reported as a failure at once, without a promise about the table.
- An error thrown inside `stop_running_threads`, or by a callback that is told of a thread's end: the run ends there without a promise.
- Arming of sites while other threads run, when `wait_on_signal` steps a thread over a breakpoint (src/process.cpp:452-455): StopPoints steps over with all threads stopped, AllStop does not look at memory.
- Mapping and unmapping of memory by the inferior: the set of mapped pages is fixed.
- Debug registers of threads created later: nothing copies them, so the thread set of StopPoints is fixed.
- The limit on the number of chunks of one `process_vm_readv` call.
- `parse_abbrev_table`, and where a compile unit ends.
- `DW_LNE_define_file`, and the file entry that a row points to.
- DWARF expressions and location lists, and the register restore step after the rules are found.
- Decoding of the pointers in `.eh_frame_hdr` and of the CIE and FDE headers.
- `die::name`: the name an entry resolves to is given; `get_member_function_definition` and `function_containing_address` only read the index.
- In the comparison of parameter classes with the ABI: long double, quadruple and decimal floating types and vector types, bit fields that cross their storage unit, `std::nullptr_t`; integer sizes near 2^64.
- Reading the return value, `inferior_malloc`, overload resolution (but for the sizes it lets through; two types of the same name and different sizes also pass) and parsing of argument expressions.
- `uint32_t` truncation of bit offsets above 2^32 in `memcpy_bits`.
- Command line, printing, disassembly, demangling, the dynamic linker's rendezvous and floating-point formats.
- InferiorCall.Machine.SetupArguments: classifies all types before anything is written, because a failing call then differs only in the bytes it leaves below the stack pointer.
- InferiorCall.CalleeFindsBytes: asks for room below the stack pointer, without which the 64-bit stack pointer wraps around, and for copied arguments no larger than their types.
- InferiorCall.CalleeFinds: asks in addition that stack arguments fit their slots, and so does CallLayout.LayoutSeparated; `SlotSizes.SlotsFitIff` says which do, and CalleeFindsBytes covers the others.
