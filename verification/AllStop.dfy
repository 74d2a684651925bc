/**
  The traced threads as the kernel sees them.  A thread runs, is halted on a
  report that waitpid has or has not yet returned, or is dead.  `queued` is the
  thread's one-bit SIGSTOP queue.
 */
module Kernel {
  type Tid = nat

  const SIGTRAP: nat := 5
  const SIGSTOP: nat := 19
  /** What waitpid shows for a system-call stop: bit 7 is set on top of SIGTRAP. */
  const SYSCALL_TRAP: nat := 133

  datatype Report =
    | Stop(signal: nat, clone: bool)
    | Exit(status: nat)
    | Kill(signal: nat)

  datatype KThread =
    | Running(queued: bool)
    | Halted(report: Report, reaped: bool, queued: bool)
    | Dead(report: Report, reaped: bool)

  type Threads = map<Tid, KThread>

  /** Everything the inferior can do on its own. */
  datatype Action =
    | DeliverStop(t: Tid)
    | Trap(t: Tid, signal: nat)
    | Spawn(t: Tid, child: Tid)
    | Die(t: Tid, report: Report)

  const FirstStop := Halted(Stop(SIGSTOP, false), false, false)

  /** One spontaneous kernel step; a step whose guard fails does nothing. */
  function Apply(k: Threads, a: Action): Threads {
    if a.t !in k || !k[a.t].Running? then k else
    var q := k[a.t].queued;
    match a
    case DeliverStop(t) => if q then k[t := Halted(Stop(SIGSTOP, false), false, false)] else k
    case Trap(t, s) => if s != SIGSTOP then k[t := Halted(Stop(s, false), false, q)] else k
    case Spawn(t, c) => if c !in k then k[t := Halted(Stop(SIGTRAP, true), false, q)][c := FirstStop] else k
    case Die(t, r) => if !r.Stop? then k[t := Dead(r, false)] else k
  }

  function Evolve(k: Threads, actions: seq<Action>): Threads
    decreases actions
  {
    if actions == [] then k else Evolve(Apply(k, actions[0]), actions[1..])
  }

  /** The thread runs, or has a report waitpid has not returned. */
  predicate InFlight(h: KThread) {
    h.Running? || !h.reaped
  }

  predicate IsSigstop(r: Report) {
    r.Stop? && r.signal == SIGSTOP
  }

  /** SIGSTOPs sent to the thread and not yet returned by waitpid. */
  function Outstanding(h: KThread): nat {
    match h
    case Running(q) => if q then 1 else 0
    case Halted(r, reaped, q) => (if q then 1 else 0) + (if !reaped && IsSigstop(r) then 1 else 0)
    case Dead(_, _) => 0
  }

  /** waitpid on the thread is bound to return. */
  predicate Due(h: KThread) {
    if h.Running? then h.queued else !h.reaped
  }

  /** Halts are reported as stops and deaths as exits. */
  predicate Sound(h: KThread) {
    && (h.Halted? ==> h.report.Stop? && (h.report.clone ==> h.report.signal == SIGTRAP))
    && (h.Dead? ==> !h.report.Stop?)
  }

  /** How the kernel's view can change while the debugger does nothing. */
  ghost predicate Later(k: Threads, k': Threads) {
    && k.Keys <= k'.Keys
    && (forall t | t in k && !k[t].Running? :: k'[t] == k[t])
    && (forall t | t in k && k[t].Running? ::
          InFlight(k'[t]) && Sound(k'[t]) && (k'[t].Dead? || Outstanding(k'[t]) == Outstanding(k[t])))
    && (forall t | t in k' && t !in k :: k'[t] == FirstStop)
    && ((forall t | t in k :: !k[t].Running?) ==> k'.Keys == k.Keys)
  }

  lemma {:induction false} EvolveIsLater(k: Threads, actions: seq<Action>)
    ensures Later(k, Evolve(k, actions))
    decreases actions
  {
    if actions != [] {
      var next := Apply(k, actions[0]);
      assert Later(k, next);
      EvolveIsLater(next, actions[1..]);
    }
  }
}

/**
  The debugger's side of the all-stop protocol: gsdb::process keeps a mark and a
  pending flag per thread, and the kernel moves underneath it between any two
  requests.  Choices the model leaves to the inferior are written `*`.
 */
module AllStop {
  import opened Options
  import opened Kernel

  datatype Mark = Stopped | Active | Exited | Terminated

  datatype Thread = Thread(mark: Mark, reason: Report, pending: bool)

  datatype Handled = Restart | Reported(reason: Report) | Threw

  datatype Outcome =
    | Returned(tid: Tid, reason: Report)
    | Rethrown            // handle_signal threw: threads were stopped first
    | Blocked             // the run ends inside waitpid
    | Failed              // a request was refused, or an event callback threw outside handle_signal
    | Done                // a command that reports nothing

  datatype Command = ResumeAll | ResumeOne(t: Tid) | Wait(target: Option<Tid>) | Step(t: Tid)

  datatype Snapshot = Snapshot(threads: map<Tid, Thread>, kernel: Threads, current: Tid, outcome: Outcome)

  function MarkOf(r: Report): Mark {
    match r
    case Stop(_, _) => Stopped
    case Exit(_) => Exited
    case Kill(_) => Terminated
  }

  /** What a report is shown as: a system-call stop as the trap it is, anything else as it came. */
  function Shown(r: Report): (s: Report)
    ensures s.Stop? <==> r.Stop?
  {
    if r.Stop? && r.signal == SYSCALL_TRAP then r.(signal := SIGTRAP) else r
  }

  predicate Agrees(m: Mark, h: KThread) {
    match m
    case Stopped => h.Halted? && h.reaped
    case Active => InFlight(h)
    case Exited => h.Dead? && h.reaped
    case Terminated => h.Dead? && h.reaped
  }

  /** A thread gsdb does not track: not announced yet, or buried. */
  predicate Unseen(h: KThread) {
    h == FirstStop || (h.Dead? && h.reaped)
  }

  predicate Gone(th: Thread) {
    th.mark == Exited || th.mark == Terminated
  }

  predicate TrackedWell(th: Thread, h: KThread, loose: bool) {
    && (if loose then InFlight(h) else Agrees(th.mark, h))
    && (h.Dead? || Outstanding(h) == if th.pending then 1 else 0)
    && (Gone(th) && !loose && !h.Running? ==> th.reason == h.report)
  }

  /**
    The debugger's table matches the kernel.  `loose` is a thread being single
    stepped, which is in flight whatever its mark says; `except` is a thread
    whose report is being processed.
   */
  ghost predicate Consistent(threads: map<Tid, Thread>, k: Threads, loose: set<Tid>, except: set<Tid>) {
    && threads.Keys <= k.Keys
    && (forall t | t in threads && t !in except :: TrackedWell(threads[t], k[t], t in loose))
    && (forall t | t in k && t !in threads && t !in except :: Unseen(k[t]))
    && (forall t | t in k :: Sound(k[t]))
  }

  /** Every thread of the inferior is halted, and the marks say so. */
  ghost predicate AllStopped(threads: map<Tid, Thread>, k: Threads) {
    && threads.Keys <= k.Keys
    && (forall t | t in threads :: threads[t].mark == Stopped && k[t].Halted? && k[t].reaped)
    && (forall t | t in k :: !k[t].Running?)
  }

  /** No inferior step, however many are taken, breaks the table. */
  lemma LaterKeepsConsistent(threads: map<Tid, Thread>, k: Threads, k': Threads, loose: set<Tid>, except: set<Tid>)
    requires Consistent(threads, k, loose, except)
    requires Later(k, k')
    ensures Consistent(threads, k', loose, except)
  {
  }

  /** The reason is the thread's own: what the kernel reported of it, and what its entry says. */
  ghost predicate Told(threads: map<Tid, Thread>, k: Threads, t: Tid, reason: Report) {
    && t in threads && threads[t].reason == reason
    && Collected(k, t) && reason == Shown(k[t].report)
  }

  /** What a command reports: a stop of the current thread in an all-stop, or the end of the leader. */
  ghost predicate Truthful(s: Snapshot, pid: Tid) {
    s.outcome.Returned? ==>
      if s.outcome.reason.Stop?
      then AllStopped(s.threads, s.kernel) && Told(s.threads, s.kernel, s.outcome.tid, s.outcome.reason)
           && s.outcome.reason.signal != SIGSTOP && s.current == s.outcome.tid
      else s.outcome.tid == pid && Collected(s.kernel, pid) && s.kernel[pid].Dead? && s.outcome.reason == s.kernel[pid].report
  }

  /** What was asked for has happened: the threads were resumed, or a wait has ended. */
  ghost predicate Obeyed(c: Command, s: Snapshot) {
    match c
    case ResumeAll => s.outcome.Done? && forall t | t in s.threads :: s.threads[t].mark == Active
    case ResumeOne(t) => s.outcome.Done? && t in s.threads && s.threads[t].mark == Active
    case _ => s.outcome.Returned? || s.outcome.Rethrown?
  }

  class Process {
    const pid: Tid
    var threads: map<Tid, Thread>
    var state: Mark
    var current: Tid
    var kernel: Threads
    /** The thread that waitpid last returned to wait_on_signal. */
    ghost var caught: Option<Tid>
    /** How many of its waits have returned, and how many never do. */
    ghost var collected: nat
    ghost var hung: nat
    /** Requests that were refused and callbacks that threw. */
    ghost var faults: nat

    ghost predicate Valid()
      reads this
    {
      Consistent(threads, kernel, {}, {})
    }

    ghost predicate Tells(t: Tid, reason: Report)
      reads this
    {
      Told(threads, kernel, t, reason)
    }

    /** What an error thrown on a report leaves behind: the report itself in the thread's entry and in the state. */
    ghost predicate Left(t: Tid, r: Report)
      reads this
    {
      && t in threads && threads[t].reason == r && state == threads[t].mark == MarkOf(r)
      && Collected(kernel, t) && r == kernel[t].report
    }

    /** The leader is dead, and the reason is what the kernel reported of its end. */
    ghost predicate LeaderEnded(t: Tid, reason: Report)
      reads this
    {
      t == pid && Collected(kernel, pid) && kernel[pid].Dead? && reason == kernel[pid].report
    }

    /** Nothing was waited for, and what failed was refused or threw. */
    ghost predicate FailsByFault(ok: bool, faultsBefore: nat, collectedBefore: nat, hungBefore: nat)
      reads this
    {
      && faults >= faultsBefore && (!ok ==> faults > faultsBefore)
      && collected == collectedBefore && hung == hungBefore
    }

    /** A wait ends early only if one more waitpid never returns or the run is cut off, or after a refusal or a throw. */
    ghost predicate Accounted(o: Outcome, reports: nat, faultsBefore: nat, collectedBefore: nat, hungBefore: nat)
      reads this
    {
      && faults >= faultsBefore && hung >= hungBefore && collected >= collectedBefore
      && (o.Failed? ==> faults > faultsBefore)
      && (o.Blocked? ==> hung > hungBefore || collected == collectedBefore + reports)
    }

    /** A freshly launched inferior: its exec trap has not been collected. */
    constructor (pid: Tid)
      ensures this.pid == pid && pid in threads && Consistent(threads, kernel, {pid}, {})
      ensures Settled(kernel, pid) && faults == hung == collected == 0
    {
      this.pid := pid;
      threads := map[pid := Thread(Stopped, Stop(SIGTRAP, false), false)];
      state, current := Stopped, pid;
      kernel, caught := map[pid := Halted(Stop(SIGTRAP, false), false, false)], None;
      collected, hung, faults := 0, 0, 0;
    }

    /** The inferior's threads run on for any number of steps. */
    method Interfere()
      modifies this`kernel
      ensures Later(old(kernel), kernel)
    {
      ghost var done: seq<Action> := [];
      var steps: nat := *;
      while steps > 0
        invariant kernel == Evolve(old(kernel), done)
      {
        var a: Action := *;
        EvolveOneMore(old(kernel), done, a);
        kernel, done := Apply(kernel, a), done + [a];
        steps := steps - 1;
      }
      EvolveIsLater(old(kernel), done);
    }

    /**
      waitpid on one thread that is bound to report, because a report or a
      SIGSTOP is there or because it is being single stepped: it never hangs.
     */
    method AwaitThread(t: Tid, stepping: bool) returns (r: Report)
      requires t in kernel && if stepping then kernel[t] == Running(false) else Due(kernel[t])
      modifies this`kernel
      ensures Collected(kernel, t) && r == kernel[t].report
      ensures Later(old(kernel), Unreaped(kernel, t))
    {
      Interfere();
      if kernel[t].Running? {
        kernel := Apply(kernel, if stepping then Trap(t, SIGTRAP) else DeliverStop(t));
      }
      r := kernel[t].report;
      ghost var k := kernel;
      kernel := kernel[t := kernel[t].(reaped := true)];
      assert Unreaped(kernel, t) == k;
    }

    /** waitpid on one thread or on any; None when it never returns. */
    method Await(target: Option<Tid>) returns (o: Option<Tid>)
      modifies this`kernel, this`caught, this`collected, this`hung
      ensures o.Some? ==> caught == o
      ensures collected == old(collected) + (if o.Some? then 1 else 0) && hung == old(hung) + if o.None? then 1 else 0
      ensures o.None? ==> Later(old(kernel), kernel)
      ensures o.Some? ==> Collected(kernel, o.value) && Later(old(kernel), Unreaped(kernel, o.value))
      ensures o.Some? && target.Some? ==> o == target
    {
      Interfere();
      var t: Tid := *;
      if t in kernel && !kernel[t].Running? && !kernel[t].reaped && (target.None? || target.value == t) {
        ghost var k := kernel;
        kernel := kernel[t := kernel[t].(reaped := true)];
        assert Unreaped(kernel, t) == k;
        caught, collected := Some(t), collected + 1;
        return Some(t);
      }
      hung := hung + 1;
      return None;
    }

    /**
      swallow_pending_sigstop on a stopped thread: the continue delivers the
      queued SIGSTOP at once, so the wait returns it.
     */
    method SwallowPendingSigstop(t: Tid, ghost loose: set<Tid>)
      requires t in threads && Consistent(threads, kernel, loose, {t})
      requires ReadyToGo(threads[t], kernel[t])
      modifies this`kernel, this`threads
      ensures threads == old(threads)[t := old(threads[t]).(pending := false)]
      ensures Consistent(threads, kernel, loose, {t})
      ensures ReadyToGo(threads[t], kernel[t]) && !kernel[t].queued
    {
      if threads[t].pending {
        ReplaceThread(threads, kernel, loose, t, threads[t], Running(true));
        kernel := kernel[t := Running(kernel[t].queued)];
        ReplaceThread(threads, kernel, loose, t, threads[t], Apply(kernel, DeliverStop(t))[t]);
        kernel := Apply(kernel, DeliverStop(t));
        ghost var k := kernel;
        var _ := AwaitThread(t, false);
        AwaitKeepsConsistent(threads, k, kernel, loose, t);
        ReplaceThread(threads, kernel, loose, t, threads[t].(pending := false), kernel[t]);
        threads := threads[t := threads[t].(pending := false)];
      }
    }

    /**
      step_over_breakpoint: with an enabled site at pc the thread is stepped one
      instruction; the reported status is dropped, so a thread that dies under
      the step goes unnoticed until the next request on it fails.
     */
    method StepOverBreakpoint(t: Tid, ghost loose: set<Tid>) returns (ok: bool)
      requires t in threads && Consistent(threads, kernel, loose, {t})
      requires ReadyToGo(threads[t], kernel[t])
      modifies this`kernel, this`threads, this`faults
      ensures faults >= old(faults) && (!ok ==> faults > old(faults))
      ensures threads.Keys == old(threads.Keys)
      ensures forall u | u in threads && u != t :: threads[u] == old(threads[u])
      ensures threads[t].mark == old(threads[t].mark)
      ensures Consistent(threads, kernel, loose, {t})
      ensures ok ==> ReadyToGo(threads[t], kernel[t])
    {
      var atSite: bool := *;
      if !atSite {
        return true;
      }
      SwallowPendingSigstop(t, loose);
      ReplaceThread(threads, kernel, loose, t, threads[t], Running(false));
      kernel := kernel[t := Running(false)];
      ghost var k := kernel;
      var _ := AwaitThread(t, true);
      AwaitKeepsConsistent(threads, k, kernel, loose, t);
      if !kernel[t].Halted? {
        faults := faults + 1;
        return false;
      }
      return true;
    }

    /** send_continue: ptrace refuses a thread that is not stopped. */
    method SendContinue(t: Tid) returns (ok: bool)
      requires t in threads && t in kernel
      modifies this
      ensures ok == (old(kernel[t]).Halted? && old(kernel[t]).reaped)
      ensures !ok ==> threads == old(threads) && kernel == old(kernel) && state == old(state)
      ensures ok ==> threads == old(threads)[t := old(threads[t]).(mark := Active)]
                     && kernel == old(kernel)[t := Continued(old(kernel[t]))]
                     && state == Active
      ensures current == old(current) && FailsByFault(ok, old(faults), old(collected), old(hung))
    {
      if !(kernel[t].Halted? && kernel[t].reaped) {
        faults := faults + 1;
        return false;
      }
      kernel := kernel[t := Running(kernel[t].queued)];
      threads := threads[t := threads[t].(mark := Active)];
      state := Active;
      return true;
    }

    /** Step one thread over its breakpoint, seen from a consistent table. */
    method StepOverInTable(t: Tid) returns (ok: bool)
      requires Valid() && t in threads
      modifies this`kernel, this`threads, this`faults
      ensures faults >= old(faults) && (!ok ==> faults > old(faults))
      ensures ok ==> Valid() && threads.Keys == old(threads.Keys)
    {
      if !(kernel[t].Halted? && kernel[t].reaped) {
        faults := faults + 1;
        return false;
      }
      ok := StepOverBreakpoint(t, {});
      if ok {
        Close(threads, kernel, {}, t);
      }
    }

    /** Continue one thread that is ready, leaving the others as they are. */
    method ContinueInTable(t: Tid) returns (ok: bool)
      requires t in threads && Consistent(threads, kernel, {}, {t})
      requires kernel[t].Halted? && kernel[t].reaped ==> ReadyToGo(threads[t], kernel[t])
      modifies this
      ensures ok ==> Valid() && threads == old(threads)[t := old(threads[t]).(mark := Active)]
      ensures !ok ==> threads == old(threads)
      ensures FailsByFault(ok, old(faults), old(collected), old(hung))
    {
      ReplaceThread(threads, kernel, {}, t, threads[t].(mark := Active), Continued(kernel[t]));
      ok := SendContinue(t);
      if ok {
        Close(threads, kernel, {}, t);
      }
    }

    method ResumeAllThreads() returns (ok: bool)
      requires Valid()
      modifies this
      ensures ok ==> Valid() && threads.Keys == old(threads.Keys)
      ensures ok ==> forall t | t in threads :: threads[t].mark == Active
      ensures FailsByFault(ok, old(faults), old(collected), old(hung))
    {
      var todo := threads.Keys;
      while todo != {}
        invariant Valid() && todo <= threads.Keys == old(threads.Keys)
        invariant FailsByFault(true, old(faults), old(collected), old(hung))
        decreases todo
      {
        var t :| t in todo;
        ok := StepOverInTable(t);
        if !ok {
          return;
        }
        todo := todo - {t};
      }
      todo := threads.Keys;
      while todo != {}
        invariant Valid() && todo <= threads.Keys == old(threads.Keys)
        invariant forall t | t in threads && t !in todo :: threads[t].mark == Active
        invariant FailsByFault(true, old(faults), old(collected), old(hung))
        decreases todo
      {
        var t :| t in todo;
        ok := ContinueInTable(t);
        if !ok {
          return;
        }
        todo := todo - {t};
      }
      ok := true;
    }

    method Resume(t: Tid) returns (ok: bool)
      requires t in threads && Consistent(threads, kernel, {}, {t})
      requires ReadyToGo(threads[t], kernel[t])
      modifies this
      ensures threads.Keys == old(threads.Keys)
      ensures forall u | u in threads && u != t :: threads[u] == old(threads[u])
      ensures ok ==> Valid() && threads[t].mark == Active
      ensures FailsByFault(ok, old(faults), old(collected), old(hung))
    {
      ok := StepOverBreakpoint(t, {});
      if ok {
        ok := ContinueInTable(t);
      }
    }

    /**
      handle_signal.  Breakpoint hits and system-call filters decide freely
      whether to restart, but only on the main stop; anything called from here
      may throw.
     */
    method HandleSignal(t: Tid, r: Report, isMain: bool) returns (h: Handled)
      modifies this`threads, this`faults
      ensures faults == old(faults) + if h.Threw? then 1 else 0
      ensures isMain && r.Stop? && r.clone ==> h == Restart && threads == old(threads)
      ensures r.Stop? && !(isMain && r.clone) && t !in old(threads) ==>
                threads == old(threads)[t := Thread(Stopped, r, false)] && (isMain ==> h == Restart || h.Threw?)
      ensures r.Stop? && !(isMain && r.clone) && t in old(threads) ==>
                if old(threads[t].pending) && r.signal == SIGSTOP
                then h == Restart && threads == old(threads)[t := old(threads[t]).(pending := false)]
                else threads == old(threads)
      ensures h == Restart ==> r.Stop? && (isMain || r.signal == SIGSTOP)
      ensures !r.Stop? ==> h == Reported(r) && threads == old(threads)
      ensures h.Reported? ==> h.reason == Shown(r)
    {
      if isMain && r.Stop? && r.clone {
        return Restart;
      }
      if r.Stop? {
        if t !in threads {
          threads := threads[t := Thread(Stopped, r, false)];
          var reportThrows: bool := *;
          if reportThrows {
            faults := faults + 1;
            return Threw;
          }
          if isMain {
            return Restart;
          }
        }
        if threads[t].pending && r.signal == SIGSTOP {
          threads := threads[t := threads[t].(pending := false)];
          return Restart;
        }
        var throws: bool := *;
        if throws {
          faults := faults + 1;
          return Threw;
        }
        var restart: bool := *;
        if restart && isMain && (r.signal == SIGTRAP || r.signal == SYSCALL_TRAP) {
          return Restart;
        }
        return Reported(Stop(if r.signal == SYSCALL_TRAP then SIGTRAP else r.signal, r.clone));
      }
      return Reported(r);
    }

    /**
      stop_running_threads: every wait is on a thread bound to report, and
      afterwards no thread is marked running.
     */
    method StopRunningThreads() returns (ok: bool)
      requires Valid()
      modifies this`threads, this`kernel, this`faults
      ensures faults >= old(faults) && (!ok ==> faults > old(faults))
      ensures threads.Keys == old(threads.Keys)
      ensures ok ==> Valid() && forall t | t in threads :: threads[t].mark != Active
      ensures forall t | t in threads && old(threads[t].mark) != Active ::
                threads[t] == old(threads[t]) && t in kernel && kernel[t] == old(kernel[t])
      ensures ok ==> forall t | t in threads && old(threads[t].mark) == Active :: Tells(t, threads[t].reason)
    {
      var todo := threads.Keys;
      while todo != {}
        invariant Valid() && todo <= threads.Keys == old(threads.Keys)
        invariant forall t | t in threads && t !in todo :: threads[t].mark != Active
        invariant forall t | t in threads && (t in todo || old(threads[t].mark) != Active) ::
                    threads[t] == old(threads[t])
        invariant forall t | t in threads && old(threads[t].mark) != Active :: t in kernel && kernel[t] == old(kernel[t])
        invariant forall t | t in threads && t !in todo && old(threads[t].mark) == Active :: Tells(t, threads[t].reason)
        invariant faults >= old(faults)
        decreases todo
      {
        var t :| t in todo;
        if threads[t].mark == Active {
          ok := StopThread(t);
          if !ok {
            return;
          }
        }
        todo := todo - {t};
      }
      ok := true;
    }

    /** Send SIGSTOP unless one is pending, and wait: at most one is ever out. */
    method CollectStop(t: Tid) returns (r: Report)
      requires Valid() && t in threads && threads[t].mark == Active
      modifies this`kernel
      ensures Consistent(threads, kernel, {}, {t})
      ensures Collected(kernel, t) && r == kernel[t].report
      ensures forall u | u in threads && u != t && threads[u].mark != Active :: u in kernel && kernel[u] == old(kernel[u])
      ensures r.Stop? ==> kernel[t].Halted? && kernel[t].queued == (r.signal != SIGSTOP)
    {
      if !threads[t].pending {
        ReplaceThread(threads, kernel, {}, t, threads[t], Tgkill(kernel[t]));
        assert threads[t := threads[t]] == threads;
        kernel := kernel[t := Tgkill(kernel[t])];
      }
      ghost var k := kernel;
      assert k[t].Dead? || Outstanding(k[t]) == 1;
      assert Consistent(threads, k, {}, {t});
      r := AwaitThread(t, false);
      AwaitKeepsConsistent(threads, k, kernel, {}, t);
      assert Sound(kernel[t]);
    }

    /** One round of the loop in stop_running_threads. */
    method StopThread(t: Tid) returns (ok: bool)
      requires Valid() && t in threads && threads[t].mark == Active
      modifies this`threads, this`kernel, this`faults
      ensures faults >= old(faults) && (!ok ==> faults > old(faults))
      ensures threads.Keys == old(threads.Keys)
      ensures forall u | u in threads && u != t :: threads[u] == old(threads[u])
      ensures forall u | u in threads && u != t && threads[u].mark != Active :: u in kernel && kernel[u] == old(kernel[u])
      ensures ok ==> Valid() && threads[t].mark != Active && Tells(t, threads[t].reason)
    {
      var r := CollectStop(t);
      if r.Stop? {
        if r.signal != SIGSTOP {
          threads := threads[t := threads[t].(pending := true)];
        } else if threads[t].pending {
          threads := threads[t := threads[t].(pending := false)];
        }
      }
      var h := HandleSignal(t, r, false);
      if h.Threw? {
        return false;
      }
      var reason := if h.Reported? then h.reason else r;
      var th := threads[t].(reason := reason, mark := MarkOf(reason));
      assert TrackedWell(th, kernel[t], false);
      assert threads[t := th] == old(threads)[t := th];
      SettleThread(old(threads), kernel, t, th);
      threads := threads[t := th];
      return true;
    }

    /**
      cleanup_exited_threads: every dead thread but the one that caused the stop
      is forgotten; the leader's end, if seen here, is what gets reported.
     */
    method CleanupExitedThreads(mainStop: Tid) returns (toReport: Option<Report>)
      modifies this`threads
      ensures forall t :: t in threads <==> t in old(threads) && (t == mainStop || !Gone(old(threads[t])))
      ensures forall t | t in threads :: threads[t] == old(threads[t])
      ensures toReport == if pid in old(threads) && pid != mainStop && Gone(old(threads[pid]))
                          then Some(old(threads[pid]).reason) else None
    {
      var toRemove: seq<Tid> := [];
      toReport := None;
      var todo := threads.Keys;
      while todo != {}
        invariant todo <= threads.Keys
        invariant forall t :: t in toRemove <==> t in threads && t !in todo && t != mainStop && Gone(threads[t])
        invariant toReport == if pid in toRemove then Some(threads[pid].reason) else None
        decreases todo
      {
        var t :| t in todo;
        if t != mainStop && Gone(threads[t]) {
          toRemove := toRemove + [t];
          if t == pid {
            toReport := Some(threads[t].reason);
          }
        }
        todo := todo - {t};
      }
      for i := 0 to |toRemove|
        invariant forall t :: t in threads <==> t in old(threads) && t !in toRemove[..i]
        invariant forall t | t in threads :: threads[t] == old(threads[t])
      {
        threads := threads - {toRemove[i]};
      }
    }

    /**
      wait_on_signal.  `reports` bounds how many waitpid calls return before the
      run is cut off, so quantifying over it covers every finite run.
     */
    method WaitOnSignal(toAwait: Option<Tid>, reports: nat, ghost loose: set<Tid>) returns (o: Outcome)
      requires loose <= threads.Keys && Consistent(threads, kernel, loose, {})
      requires forall x | x in loose :: toAwait == Some(x) || Settled(kernel, x)
      modifies this
      ensures o.Returned? && o.reason.Stop? ==>
                Valid() && AllStopped(threads, kernel) && state == Stopped && current == o.tid && current in threads
      ensures o.Returned? && o.reason.Stop? ==> o.reason.signal != SIGSTOP
      ensures o.Returned? && o.reason.Stop? ==> caught == Some(o.tid) && Tells(o.tid, o.reason)
      ensures o.Returned? && !o.reason.Stop? ==> Valid() && state == MarkOf(o.reason) && LeaderEnded(o.tid, o.reason)
      ensures o.Rethrown? ==> Valid() && forall t | t in threads :: threads[t].mark != Active
      ensures o.Rethrown? ==> caught == Some(current) && current in threads && Left(current, threads[current].reason)
      ensures !o.Done?
      ensures o.Blocked? ==> Valid() || (loose <= threads.Keys && Consistent(threads, kernel, loose, {}))
      ensures Accounted(o, reports, old(faults), old(collected), old(hung))
      decreases reports
    {
      if reports == 0 {
        return Blocked;
      }
      var got, r, h := CollectMainStop(toAwait, loose);
      if got.None? {
        return Blocked;
      }
      var t := got.value;
      if h.Threw? {
        o := Rethrow(t, r);
        return;
      }
      if h.Restart? {
        var ok := Resume(t);
        if !ok {
          return Failed;
        }
        o := WaitOnSignal(toAwait, reports - 1, {});
        return;
      }
      var th := threads[t].(reason := h.reason, mark := MarkOf(h.reason));
      SettleThread(threads, kernel, t, th);
      threads := threads[t := th];
      if h.reason.Stop? {
        o := ReportStop(t, h.reason);
        return;
      }
      var reportThrows: bool := *;
      if reportThrows {
        faults := faults + 1;
        o := Failed;
      } else if t == pid {
        state := MarkOf(h.reason);
        o := Returned(t, h.reason);
      } else {
        o := WaitOnSignal(None, reports - 1, {});
      }
    }

    /** handle_signal threw: the thread keeps the raw report, and the others are stopped before the error goes on. */
    method Rethrow(t: Tid, r: Report) returns (o: Outcome)
      requires t in threads && Consistent(threads, kernel, {}, {t}) && Collected(kernel, t) && r == kernel[t].report
      requires TrackedWell(threads[t].(reason := r, mark := MarkOf(r)), kernel[t], false)
      modifies this
      ensures o.Failed? || o.Rethrown?
      ensures o.Rethrown? ==> Valid() && forall u | u in threads :: threads[u].mark != Active
      ensures o.Rethrown? ==> caught == old(caught) && current == t && Left(t, r)
      ensures FailsByFault(!o.Failed?, old(faults), old(collected), old(hung))
    {
      var th := threads[t].(reason := r, mark := MarkOf(r));
      SettleThread(threads, kernel, t, th);
      threads := threads[t := th];
      var ok := StopRunningThreads();
      if !ok {
        return Failed;
      }
      state, current := MarkOf(r), t;
      return Rethrown;
    }

    /** waitpid and handle_signal on the main stop. */
    method CollectMainStop(toAwait: Option<Tid>, ghost loose: set<Tid>)
      returns (got: Option<Tid>, r: Report, h: Handled)
      requires loose <= threads.Keys && Consistent(threads, kernel, loose, {})
      requires forall x | x in loose :: toAwait == Some(x) || Settled(kernel, x)
      modifies this`threads, this`kernel, this`caught, this`collected, this`hung, this`faults
      ensures collected == old(collected) + (if got.Some? then 1 else 0) && hung == old(hung) + if got.None? then 1 else 0
      ensures faults >= old(faults)
      ensures got.Some? ==> caught == got && Collected(kernel, got.value) && r == kernel[got.value].report
      ensures got.Some? && toAwait.Some? ==> got == toAwait
      ensures got.Some? && h.Reported? ==> h.reason == Shown(r)
      ensures got.None? ==> threads == old(threads) && Consistent(threads, kernel, loose, {})
      ensures got.Some? ==> got.value in threads && Consistent(threads, kernel, {}, {got.value})
      ensures got.Some? && h.Restart? ==> ReadyToGo(threads[got.value], kernel[got.value])
      ensures got.Some? && h.Threw? ==>
                TrackedWell(threads[got.value].(reason := r, mark := MarkOf(r)), kernel[got.value], false)
      ensures got.Some? && h.Reported? ==> !IsSigstop(h.reason)
      ensures got.Some? && h.Reported? ==>
                TrackedWell(threads[got.value].(reason := h.reason, mark := MarkOf(h.reason)), kernel[got.value], false)
    {
      ghost var k := kernel;
      got := Await(toAwait);
      r, h := Exit(0), Restart;
      if got.None? {
        LaterKeepsConsistent(threads, k, kernel, loose, {});
        return;
      }
      var t := got.value;
      MainStopFacts(threads, k, kernel, loose, t);
      assert loose <= {t};
      r, h := TreatMainStop(t);
    }

    /** handle_signal on the main stop: a new thread is tracked, its report sorted. */
    method TreatMainStop(t: Tid) returns (r: Report, h: Handled)
      requires Collected(kernel, t) && Consistent(threads, kernel, {}, {t}) && Sound(kernel[t])
      requires t !in threads ==> kernel[t] == Halted(Stop(SIGSTOP, false), true, false)
      requires t in threads && kernel[t].Halted? && !IsSigstop(kernel[t].report) ==> ReadyToGo(threads[t], kernel[t])
      requires t in threads && kernel[t].Halted? && IsSigstop(kernel[t].report) ==>
                 threads[t].pending && !kernel[t].queued
      modifies this`threads, this`faults
      ensures faults >= old(faults)
      ensures r == kernel[t].report && (h.Reported? ==> h.reason == Shown(r))
      ensures t in threads && Consistent(threads, kernel, {}, {t})
      ensures h.Restart? ==> ReadyToGo(threads[t], kernel[t])
      ensures h.Threw? ==> TrackedWell(threads[t].(reason := r, mark := MarkOf(r)), kernel[t], false)
      ensures h.Reported? ==> !IsSigstop(h.reason)
      ensures h.Reported? ==> TrackedWell(threads[t].(reason := h.reason, mark := MarkOf(h.reason)), kernel[t], false)
    {
      r := kernel[t].report;
      h := HandleSignal(t, r, true);
      assert threads == old(threads)[t := threads[t]];
      ReplaceThread(old(threads), kernel, {}, t, threads[t], kernel[t]);
      assert kernel[t := kernel[t]] == kernel;
    }

    /** The end of wait_on_signal: a stop is reported once everything stands still. */
    method ReportStop(t: Tid, r: Report) returns (o: Outcome)
      requires Valid() && t in threads && threads[t].mark == Stopped
      requires r.Stop? && r.signal != SIGSTOP && threads[t].reason == r && Tells(t, r)
      modifies this
      ensures o.Failed? || o.Returned?
      ensures o.Returned? ==> Valid() && AllStopped(threads, kernel) && state == MarkOf(o.reason)
      ensures o.Returned? ==> caught == old(caught) && current == t && Tells(t, r)
      ensures o.Returned? ==> if o.reason.Stop? then o.tid == t && o.reason == r else LeaderEnded(o.tid, o.reason)
      ensures FailsByFault(!o.Failed?, old(faults), old(collected), old(hung))
    {
      var ok := StopRunningThreads();
      if !ok {
        return Failed;
      }
      var reportThrows: bool := *;
      if reportThrows {
        faults := faults + 1;
        return Failed;
      }
      o := Conclude(t, r);
    }

    /** With everything at a standstill, the dead are dropped and the stop or the leader's end is reported. */
    method Conclude(t: Tid, r: Report) returns (o: Outcome)
      requires Valid() && t in threads && threads[t].mark == Stopped && forall u | u in threads :: threads[u].mark != Active
      requires r.Stop? && Tells(t, r)
      modifies this`threads, this`state, this`current
      ensures o.Returned? && Valid() && AllStopped(threads, kernel) && state == MarkOf(o.reason)
      ensures current == t && Tells(t, r)
      ensures if o.reason.Stop? then o.tid == t && o.reason == r else LeaderEnded(o.tid, o.reason)
    {
      ghost var before := threads;
      var leader := CleanupExitedThreads(t);
      CleanupLeavesAllStopped(before, threads, kernel, t);
      var reason := if leader.Some? then leader.value else r;
      state, current := MarkOf(reason), t;
      return Returned(if leader.Some? then pid else t, reason);
    }

    method StepInstruction(t: Tid, reports: nat) returns (o: Outcome)
      requires Valid()
      modifies this
      ensures o.Returned? || o.Rethrown? ==> Valid()
      ensures Truthful(Snapshot(threads, kernel, current, o), pid)
      ensures !o.Done?
      ensures o.Blocked? ==> Valid() || (t in threads && Consistent(threads, kernel, {t}, {}))
      ensures Accounted(o, reports, old(faults), old(collected), old(hung))
    {
      if t !in threads || !(kernel[t].Halted? && kernel[t].reaped) {
        faults := faults + 1;
        return Failed;
      }
      SwallowPendingSigstop(t, {});
      ReplaceThread(threads, kernel, {t}, t, threads[t], Running(false));
      assert threads[t := threads[t]] == threads;
      kernel := kernel[t := Running(false)];
      Close(threads, kernel, {t}, t);
      o := WaitOnSignal(Some(t), reports, {t});
    }

    /**
      Any sequence of debugger commands, for as long as none fails or blocks:
      each snapshot between two commands is consistent, each command has done what
      it is for, and each stop reported in the run is an all-stop and told as the
      kernel reported it.  A wait is cut off after `reports` reports.
     */
    method Session(commands: seq<Command>, reports: nat) returns (ghost history: seq<Snapshot>)
      requires Valid()
      modifies this
      ensures forall i | 0 <= i < |history| :: Consistent(history[i].threads, history[i].kernel, {}, {})
      ensures forall i | 0 <= i < |history| :: Truthful(history[i], pid)
      ensures |history| <= |commands| && forall i | 0 <= i < |history| :: Obeyed(commands[i], history[i])
      ensures |history| < |commands| ==> faults > old(faults) || hung > old(hung) || collected >= old(collected) + reports
    {
      history := [];
      for i := 0 to |commands|
        invariant Valid()
        invariant forall j | 0 <= j < |history| :: Consistent(history[j].threads, history[j].kernel, {}, {})
        invariant forall j | 0 <= j < |history| :: Truthful(history[j], pid)
        invariant |history| == i && forall j | 0 <= j < i :: Obeyed(commands[j], history[j])
        invariant faults >= old(faults) && hung >= old(hung) && collected >= old(collected)
      {
        var o := Execute(commands[i], reports);
        if o.Failed? || o.Blocked? {
          return;
        }
        history := history + [Snapshot(threads, kernel, current, o)];
      }
    }

    /** A session from the launch on: the exec trap is waited for first. */
    static method Debug(pid: Tid, commands: seq<Command>, reports: nat)
      returns (process: Process, ghost history: seq<Snapshot>)
      ensures process.pid == pid
      ensures forall i | 0 <= i < |history| :: Consistent(history[i].threads, history[i].kernel, {}, {})
      ensures forall i | 0 <= i < |history| :: Truthful(history[i], pid)
      ensures |history| <= |commands| && forall i | 0 <= i < |history| :: Obeyed(commands[i], history[i])
      ensures |history| < |commands| ==> process.faults > 0 || process.hung > 0 || process.collected >= reports
    {
      history := [];
      process := new Process(pid);
      var o := process.WaitOnSignal(None, reports, {pid});
      if o.Returned? || o.Rethrown? {
        history := process.Session(commands, reports);
      }
    }

    method Execute(c: Command, reports: nat) returns (o: Outcome)
      requires Valid()
      modifies this
      ensures !o.Failed? && !o.Blocked? ==> Valid() && Obeyed(c, Snapshot(threads, kernel, current, o))
      ensures Truthful(Snapshot(threads, kernel, current, o), pid)
      ensures Accounted(o, reports, old(faults), old(collected), old(hung))
    {
      match c
      case ResumeAll =>
        var ok := ResumeAllThreads();
        return if ok then Done else Failed;
      case ResumeOne(t) =>
        if t !in threads || !(kernel[t].Halted? && kernel[t].reaped) {
          faults := faults + 1;
          return Failed;
        }
        var ok := Resume(t);
        return if ok then Done else Failed;
      case Wait(target) =>
        o := WaitOnSignal(target, reports, {});
      case Step(t) =>
        o := StepInstruction(t, reports);
    }
  }

  /** With nothing marked running, dropping the dead leaves an all-stop. */
  lemma CleanupLeavesAllStopped(before: map<Tid, Thread>, after: map<Tid, Thread>, k: Threads, t: Tid)
    requires Consistent(before, k, {}, {}) && t in before && before[t].mark == Stopped
    requires forall u | u in before :: before[u].mark != Active
    requires forall u :: u in after <==> u in before && (u == t || !Gone(before[u]))
    requires forall u | u in after :: after[u] == before[u]
    ensures Consistent(after, k, {}, {}) && AllStopped(after, k)
    ensures forall u | u in before && Gone(before[u]) ::
              k[u].Dead? && k[u].reaped && before[u].reason == k[u].report && !before[u].reason.Stop?
  {
    assert forall u | u in before :: TrackedWell(before[u], k[u], false);
  }

  /** What is known of the thread waitpid(-1) has just returned. */
  lemma MainStopFacts(threads: map<Tid, Thread>, k: Threads, k': Threads, loose: set<Tid>, t: Tid)
    requires Consistent(threads, k, loose, {})
    requires Collected(k', t) && Later(k, Unreaped(k', t))
    ensures Consistent(threads, k', loose, {t}) && Sound(k'[t])
    ensures t !in threads ==> k'[t] == Halted(Stop(SIGSTOP, false), true, false)
    ensures t in threads && k'[t].Halted? && !IsSigstop(k'[t].report) ==> ReadyToGo(threads[t], k'[t])
    ensures t in threads && k'[t].Halted? && IsSigstop(k'[t].report) ==> threads[t].pending && !k'[t].queued
  {
    var before := Unreaped(k', t);
    LaterKeepsConsistent(threads, k, before, loose, {});
    assert t in threads ==> TrackedWell(threads[t], before[t], t in loose);
    assert forall u | u != t && u in k' :: k'[u] == before[u];
  }

  /** tgkill(SIGSTOP): the one-bit queue is set unless the thread is dead. */
  function Tgkill(h: KThread): KThread {
    if h.Dead? then h else h.(queued := true)
  }

  /** The thread after a continue request that ptrace accepts. */
  function Continued(h: KThread): KThread {
    if h.Halted? then Running(h.queued) else h
  }

  /** A stopped thread whose pending flag says whether a SIGSTOP is queued. */
  predicate ReadyToGo(th: Thread, h: KThread) {
    h.Halted? && h.reaped && h.queued == th.pending
  }

  /** The entry of the thread under treatment may change freely. */
  lemma ReplaceThread(threads: map<Tid, Thread>, k: Threads, loose: set<Tid>, t: Tid, th: Thread, h: KThread)
    requires Consistent(threads, k, loose, {t}) && Sound(h)
    ensures Consistent(threads[t := th], k[t := h], loose, {t})
  {
  }

  /** Once the thread under treatment is in order again, the whole table is. */
  lemma Close(threads: map<Tid, Thread>, k: Threads, loose: set<Tid>, t: Tid)
    requires t in threads && Consistent(threads, k, loose, {t})
    requires TrackedWell(threads[t], k[t], t in loose)
    ensures Consistent(threads, k, loose, {})
  {
  }

  lemma SettleThread(threads: map<Tid, Thread>, k: Threads, t: Tid, th: Thread)
    requires t in threads && Consistent(threads, k, {}, {t})
    requires TrackedWell(th, k[t], false)
    ensures Consistent(threads[t := th], k, {}, {})
  {
    ReplaceThread(threads, k, {}, t, th, k[t]);
    assert k[t := k[t]] == k;
    Close(threads[t := th], k, {}, t);
  }

  /** While t is treated apart, waiting for it leaves the rest consistent. */
  lemma AwaitKeepsConsistent(threads: map<Tid, Thread>, k: Threads, k': Threads, loose: set<Tid>, t: Tid)
    requires t in threads && Consistent(threads, k, loose, {t})
    requires Collected(k', t) && Later(k, Unreaped(k', t))
    ensures Consistent(threads, k', loose, {t})
  {
    LaterKeepsConsistent(threads, k, Unreaped(k', t), loose, {t});
    ReplaceThread(threads, Unreaped(k', t), loose, t, threads[t], k'[t]);
    assert Unreaped(k', t)[t := k'[t]] == k';
    assert threads[t := threads[t]] == threads;
  }

  /** The only kernel thread is t, and it has stopped. */
  ghost predicate Settled(k: Threads, t: Tid) {
    k.Keys == {t} && !k[t].Running?
  }

  ghost predicate Collected(k: Threads, t: Tid) {
    t in k && !k[t].Running? && k[t].reaped
  }

  /** The kernel just before waitpid collected t's report. */
  ghost function Unreaped(k: Threads, t: Tid): Threads
    requires Collected(k, t)
  {
    k[t := k[t].(reaped := false)]
  }

  lemma {:induction false} EvolveOneMore(k: Threads, actions: seq<Action>, a: Action)
    ensures Evolve(k, actions + [a]) == Apply(Evolve(k, actions), a)
    decreases actions
  {
    if actions == [] {
      assert [a][1..] == [];
    } else {
      assert (actions + [a])[1..] == actions[1..] + [a];
      EvolveOneMore(Apply(k, actions[0]), actions[1..], a);
    }
  }
}
