/**
 The init monitor: the tracing state of init, the ptrace stops the SIGCHLD handler reaps, and
 the two pid sets it keeps. The kernel's half of the protocol is a value of type `Kernel`; every
 ptrace request is a function on it, and everything else the kernel may do is an event.
 */
module Monitor {
  type Pid = nat

  type Sig = n: int | 1 <= n witness 1

  const INIT: Pid := 1
  const SIGCHLD := 17
  const SIGCONT := 18
  const SIGSTOP := 19
  const SIGTSTP := 20
  const SIGTTIN := 21
  const SIGTTOU := 22

  datatype TracingState = TRACING | STOPPING | STOPPED | EXITING

  /** What waitpid reports. `Interrupted` is SIGTRAP with PTRACE_EVENT_STOP, `Signal` a stop with
      no ptrace event, `OtherEvent` every other event stop, `Died` an exit or a fatal signal. */
  datatype Status = Forked | Interrupted | Execed | Signal(sig: Sig) | OtherEvent | Died

  datatype Phase = Running | Halted(report: Status) | Reaped(report: Status)

  /** A process attached to the monitor. `reported`: a stop of it has been reaped.
      `interrupt`: a PTRACE_INTERRUPT has not stopped it yet. `stopQueued`: an undelivered SIGSTOP. */
  datatype Tracee = Tracee(phase: Phase, reported: bool, traceFork: bool, traceExec: bool,
                           interrupt: bool, stopQueued: bool)

  /** A process the monitor has let go of. */
  datatype Loose =
    | Free
    | Parked(injector: bool)  // in SIGSTOP, and whether an injector is on its way
    | StopQueued              // running, with the monitor's own SIGSTOP still to be delivered

  datatype Passed = Passed(pid: Pid, sig: Sig)

  /** `passed` logs the signals handed back to a tracee; `seizeOk` is whether the last
      PTRACE_SEIZE of init was granted. */
  datatype Kernel = Kernel(tracees: map<Pid, Tracee>, loose: map<Pid, Loose>,
                           passed: seq<Passed>, seizeOk: bool)

  datatype State = State(tracing: TracingState, process: set<Pid>, stubs: set<Pid>, kernel: Kernel)

  datatype Program = StubZygote | TargetZygote | OtherProgram

  /** The four ends of the double fork that starts an injector. */
  datatype Handoff = Launched | FirstForkFailed | SecondForkFailed | ExecFailed

  /** What one reap may learn from outside: the program behind an exec, whether the daemon and
      the crash counter allow an injection, what the nested wait reports, and how the fork went. */
  datatype Input = Input(program: Program, prepared: bool, nested: Status, handoff: Handoff)

  // ---------- ptrace requests ----------

  /** PTRACE_CONT, passing `sig` on when it is not 0; ESRCH unless the tracee is in a reaped stop. */
  function Cont(k: Kernel, pid: Pid, sig: nat): Kernel {
    if InReapedStop(k, pid) then
      k.(tracees := k.tracees[pid := k.tracees[pid].(phase := Running)],
         passed := if sig == 0 then k.passed else k.passed + [Passed(pid, sig)])
    else k
  }

  predicate InReapedStop(k: Kernel, pid: Pid) {
    pid in k.tracees && k.tracees[pid].phase.Reaped? && k.tracees[pid].phase.report != Died
  }

  function SetOptions(k: Kernel, pid: Pid, traceFork: bool): Kernel {
    if InReapedStop(k, pid) then
      k.(tracees := k.tracees[pid := k.tracees[pid].(traceFork := traceFork, traceExec := true)])
    else k
  }

  /** PTRACE_DETACH with signal 0. */
  function Detach(k: Kernel, pid: Pid): Kernel {
    if InReapedStop(k, pid) then
      k.(tracees := k.tracees - {pid},
         loose := k.loose[pid := if k.tracees[pid].stopQueued then StopQueued else Free])
    else k
  }

  /** PTRACE_DETACH with SIGSTOP: the process stays stopped. */
  function DetachStopped(k: Kernel, pid: Pid): Kernel {
    if InReapedStop(k, pid) then
      k.(tracees := k.tracees - {pid}, loose := k.loose[pid := Parked(false)])
    else k
  }

  function Interrupt(k: Kernel): Kernel {
    if INIT in k.tracees then
      k.(tracees := k.tracees[INIT := k.tracees[INIT].(interrupt := true)])
    else k
  }

  /** PTRACE_SEIZE of init with PTRACE_O_TRACEFORK; `granted` is the kernel's answer. */
  function Seize(k: Kernel, granted: bool): Kernel {
    k.(seizeOk := granted,
       loose := if granted then k.loose - {INIT} else k.loose,
       tracees := if granted then k.tracees[INIT := Tracee(Running, false, true, false, false, false)]
                  else k.tracees)
  }

  /** kill(pid, SIGSTOP) on a tracee. */
  function QueueStop(k: Kernel, pid: Pid): Kernel {
    if pid in k.tracees then
      k.(tracees := k.tracees[pid := k.tracees[pid].(stopQueued := true)])
    else k
  }

  /** waitpid taking the report `st` of `pid`: a dead tracee is gone, a stopped one is reaped.
      A SIGSTOP is delivered by its own stop and flushed by a SIGCONT. */
  function Take(k: Kernel, pid: Pid, st: Status): Kernel {
    if pid !in k.tracees then k
    else if st == Died then k.(tracees := k.tracees - {pid})
    else
      var t := k.tracees[pid];
      k.(tracees := k.tracees[pid := t.(phase := Reaped(st), reported := true,
                                        stopQueued := t.stopQueued && st != Signal(SIGSTOP) && st != Signal(SIGCONT))])
  }

  /** The last step of the hand-off, after the target was left in SIGSTOP. */
  function AfterFork(k: Kernel, pid: Pid, h: Handoff): Kernel {
    if pid !in k.loose then k
    else
      match h
      case Launched => k.(loose := k.loose[pid := Parked(true)])
      case FirstForkFailed => k.(loose := k.loose[pid := Free])
      case ExecFailed => k.(loose := k.loose[pid := Free])
      case SecondForkFailed => k
  }

  // ---------- what a reaped report must come to ----------

  /** How a report is settled. */
  datatype Settlement =
    | Resume(sig: nat)       // a parent goes on, with this signal
    | ReleaseInit            // the requested stop has arrived
    | ForgetStub             // a stub died
    | Track                  // a candidate goes on, exec tracing armed
    | Promote                // a candidate turned out to be a stub zygote
    | HandOver               // a zygote, parked for an injector
    | HandOverMissed         // a zygote that reported something else than the stop asked for
    | Release(refused: bool) // not ours; refused: an injection could not be prepared

  predicate Suppressed(pid: Pid, sig: nat) {
    || sig == SIGSTOP || sig == SIGTSTP || sig == SIGTTIN || sig == SIGTTOU
    || (pid != INIT && sig == SIGCHLD)
  }

  function Decide(s: State, pid: Pid, st: Status, i: Input): Settlement {
    if pid == INIT || pid in s.stubs then
      if pid == INIT && st == Interrupted && s.tracing == STOPPING then ReleaseInit
      else if pid != INIT && st == Died then ForgetStub
      else if st.Signal? && !Suppressed(pid, st.sig) then Resume(st.sig)
      else Resume(0)
    else if pid !in s.process then Track
    else if st == Interrupted then Track
    else if st != Execed then Release(false)
    else if i.program == StubZygote then Promote
    else if s.tracing != TRACING || i.program != TargetZygote then Release(false)
    else if !i.prepared then Release(true)
    else if i.nested == Signal(SIGSTOP) then HandOver
    else HandOverMissed
  }

  function Stopped(k: Kernel, tracing: TracingState): (TracingState, Kernel) {
    if tracing == TRACING then (STOPPING, Interrupt(k)) else (tracing, k)
  }

  function Settle(s: State, pid: Pid, st: Status, i: Input): State {
    var k := s.kernel;
    match Decide(s, pid, st, i)
    case Resume(sig) => if st == Died then s else s.(kernel := Cont(k, pid, sig))
    case ReleaseInit => s.(tracing := STOPPED, kernel := Detach(k, INIT))
    case ForgetStub => s.(stubs := s.stubs - {pid})
    case Track => s.(process := s.process + {pid}, kernel := Cont(SetOptions(k, pid, false), pid, 0))
    case Promote =>
      s.(process := s.process - {pid}, stubs := s.stubs + {pid},
         kernel := Cont(SetOptions(k, pid, true), pid, 0))
    case HandOver =>
      // The nested wait overwrote the status the erase is keyed on, so the pid stays.
      s.(kernel := AfterFork(DetachStopped(NestedStop(k, pid, i.nested), pid), pid, i.handoff))
    case HandOverMissed =>
      s.(process := s.process - {pid}, kernel := Detach(NestedStop(k, pid, i.nested), pid))
    case Release(refused) =>
      var (tracing, k') := if refused then Stopped(k, s.tracing) else (s.tracing, k);
      s.(tracing := tracing, process := s.process - {pid}, kernel := Detach(k', pid))
  }

  /** kill(SIGSTOP), PTRACE_CONT, waitpid. */
  function NestedStop(k: Kernel, pid: Pid, nested: Status): Kernel {
    Take(Cont(QueueStop(k, pid), pid, 0), pid, nested)
  }

  /** What waitpid guarantees of a report it has just taken: a dead tracee is gone from the
      table, a stopped one is held in that very stop. */
  predicate JustReaped(k: Kernel, pid: Pid, st: Status) {
    if pid in k.tracees then st != Died && k.tracees[pid].phase == Reaped(st) else st == Died
  }

  function Started(s: State, granted: bool): State {
    match s.tracing
    case STOPPING => s.(tracing := TRACING)
    case STOPPED => s.(tracing := TRACING, kernel := Seize(s.kernel, granted))
    case _ => s
  }

  function StopRequested(s: State): State {
    var (tracing, k) := Stopped(s.kernel, s.tracing);
    s.(tracing := tracing, kernel := k)
  }

  function Rearmed(s: State, granted: bool, failed: bool): State {
    if failed then StopRequested(Started(s, granted)) else Started(s, granted)
  }

  // ---------- the monitor itself ----------

  class AppMonitor {
    var tracing: TracingState
    var process: set<Pid>
    var stubs: set<Pid>
    var kernel: Kernel

    function View(): State
      reads this
    {
      State(tracing, process, stubs, kernel)
    }

    constructor (k: Kernel)
      ensures View() == State(TRACING, {}, {}, k)
    {
      tracing, process, stubs, kernel := TRACING, {}, {}, k;
    }

    method RequestStart(granted: bool)
      modifies this
      ensures View() == Started(old(View()), granted)
    {
      if tracing == STOPPING {
        tracing := TRACING;
      } else if tracing == STOPPED {
        kernel := Seize(kernel, granted);
        tracing := TRACING;
      }
    }

    method RequestStop()
      modifies this
      ensures View() == StopRequested(old(View()))
    {
      if tracing == TRACING {
        tracing := STOPPING;
        kernel := Interrupt(kernel);
      }
    }

    method RequestExit()
      modifies this
      ensures View() == old(View()).(tracing := EXITING)
    {
      tracing := EXITING;
    }

    /** `failed` is the verdict of the ABI manager's rearm. */
    method RequestRearm(granted: bool, failed: bool)
      modifies this
      ensures View() == Rearmed(old(View()), granted, failed)
    {
      if tracing != TRACING {
        RequestStart(granted);
      }
      if failed {
        RequestStop();
      }
    }

    /** `daemonExit` is the answer of the ABI manager about a daemon's own pid. */
    method HandleChildEvent(pid: Pid, status: Status, daemonExit: bool, i: Input)
      requires JustReaped(kernel, pid, status)
      modifies this
      ensures View() ==
              if daemonExit && pid != INIT && pid !in old(stubs) then old(View())
              else Settle(old(View()), pid, status, i)
    {
      if pid == INIT || pid in stubs {
        HandleParentEvent(pid, status, i);
        return;
      }
      if daemonExit {
        return;
      }
      if pid in process {
        HandleTracedProcess(pid, status, i);
      } else {
        HandleNewProcess(pid, status, i);
      }
    }

    method HandleParentEvent(pid: Pid, status: Status, ghost i: Input)
      requires pid == INIT || pid in stubs
      requires JustReaped(kernel, pid, status)
      modifies this
      ensures View() == Settle(old(View()), pid, status, i)
    {
      if status == Forked {
      } else if pid == INIT && status == Interrupted && tracing == STOPPING {
        kernel := Detach(kernel, INIT);
        tracing := STOPPED;
        return;
      } else if pid != INIT && status == Died {
        stubs := stubs - {pid};
        return;
      }
      if status != Died {
        if status.Signal? {
          var sig := status.sig;
          if sig == SIGSTOP || sig == SIGTSTP || sig == SIGTTIN || sig == SIGTTOU {
          } else if pid != INIT && sig == SIGCHLD {
          } else {
            kernel := Cont(kernel, pid, sig);
            return;
          }
        }
        kernel := Cont(kernel, pid, 0);
      }
    }

    method HandleNewProcess(pid: Pid, ghost status: Status, ghost i: Input)
      requires pid != INIT && pid !in stubs && pid !in process
      modifies this
      ensures View() == Settle(old(View()), pid, status, i)
    {
      process := process + {pid};
      kernel := SetOptions(kernel, pid, false);
      kernel := Cont(kernel, pid, 0);
    }

    method HandleTracedProcess(pid: Pid, reported: Status, i: Input)
      requires pid != INIT && pid !in stubs && pid in process
      requires JustReaped(kernel, pid, reported)
      modifies this
      ensures View() == Settle(old(View()), pid, reported, i)
    {
      var keepAttached := false;
      var status := reported;
      if status == Execed {
        keepAttached, status := HandleExecEvent(pid, status, i);
      } else if status == Interrupted {
        kernel := SetOptions(kernel, pid, false);
        kernel := Cont(kernel, pid, 0);
        keepAttached := true;
      }
      if keepAttached {
        if status == Execed {
          process := process - {pid};
        }
        return;
      }
      process := process - {pid};
      if status != Died {
        kernel := Detach(kernel, pid);
      }
    }

    /** Returns whether the process is kept, and the status as the nested wait leaves it. */
    method HandleExecEvent(pid: Pid, reported: Status, i: Input) returns (handled: bool, status: Status)
      requires pid != INIT && pid !in stubs && pid in process && reported == Execed
      modifies this
      ensures process == old(process)
      ensures var d := Decide(old(View()), pid, reported, i);
              var k := old(kernel);
              && (handled <==> d.Promote? || d.HandOver?)
              && status == (if d.HandOver? || d.HandOverMissed? then i.nested else reported)
              && stubs == (if d.Promote? then old(stubs) + {pid} else old(stubs))
              && (tracing, kernel) ==
                 match d
                 case Promote => (old(tracing), Cont(SetOptions(k, pid, true), pid, 0))
                 case HandOver => (old(tracing), AfterFork(DetachStopped(NestedStop(k, pid, i.nested), pid), pid, i.handoff))
                 case HandOverMissed => (old(tracing), NestedStop(k, pid, i.nested))
                 case Release(true) => Stopped(k, old(tracing))
                 case _ => (old(tracing), k)
    {
      status := reported;
      handled := false;
      if i.program == StubZygote {
        stubs := stubs + {pid};
        kernel := SetOptions(kernel, pid, true);
        kernel := Cont(kernel, pid, 0);
        return true, status;
      }
      if tracing != TRACING || i.program != TargetZygote {
        return;
      }
      if !i.prepared {
        RequestStop();
        return;
      }
      kernel := QueueStop(kernel, pid);
      kernel := Cont(kernel, pid, 0);
      status := i.nested;
      kernel := Take(kernel, pid, status);
      if status == Signal(SIGSTOP) {
        kernel := DetachStopped(kernel, pid);
        kernel := AfterFork(kernel, pid, i.handoff);
        handled := true;
      }
    }
  }

  // ---------- runs ----------

  datatype Event =
    | KFork(parent: Pid, child: Pid)   // a traced parent forks; the child is attached with it
    | KStop(pid: Pid, st: Status)      // a running tracee stops or dies
    | KKill(pid: Pid)                  // a stopped tracee is killed
    | KLoose(pid: Pid)                 // something else wakes or ends a process let go
    | Reap(pid: Pid, i: Input)         // waitpid returns a tracee
    | ReapOwn(pid: Pid, daemonExit: bool, i: Input) // waitpid returns a child of the monitor's own
    | Start(granted: bool)
    | Stop
    | Exit
    | Rearm(granted: bool, failed: bool)

  predicate Enabled(s: State, e: Event) {
    var t := s.kernel.tracees;
    match e
    case KFork(parent, child) =>
      parent in t && t[parent].phase.Running? && t[parent].traceFork && child !in t && child != INIT
    case KStop(pid, st) =>
      && pid in t && t[pid].phase.Running? && st != Forked
      && (st == Execed ==> t[pid].traceExec)
      && (st == Interrupted ==> t[pid].interrupt)
      && (st == Died ==> pid != INIT)
    case KKill(pid) => pid in t && t[pid].phase.Halted? && pid != INIT
    case KLoose(pid) => pid in s.kernel.loose
    case Reap(pid, _) => pid in t && t[pid].phase.Halted?
    case ReapOwn(pid, _, _) => pid !in t && pid != INIT
    case _ => true
  }

  function Apply(s: State, e: Event): State
    requires Enabled(s, e)
  {
    var k := s.kernel;
    match e
    case KFork(parent, child) =>
      s.(kernel := k.(loose := k.loose - {child},
                      tracees := k.tracees[parent := k.tracees[parent].(phase := Halted(Forked))]
                                          [child := Tracee(Halted(Interrupted), false, true, false, false, false)]))
    case KStop(pid, st) =>
      var t := k.tracees[pid];
      s.(kernel := k.(tracees := k.tracees[pid := t.(phase := Halted(st),
                                                     interrupt := t.interrupt && st != Interrupted)]))
    case KKill(pid) => s.(kernel := k.(tracees := k.tracees[pid := k.tracees[pid].(phase := Halted(Died))]))
    case KLoose(pid) => s.(kernel := k.(loose := k.loose - {pid}))
    case Reap(pid, i) =>
      var st := k.tracees[pid].phase.report;
      Settle(s.(kernel := Take(k, pid, st)), pid, st, i)
    case ReapOwn(pid, daemonExit, i) =>
      if daemonExit && pid !in s.stubs then s else Settle(s, pid, Died, i)
    case Start(granted) => Started(s, granted)
    case Stop => StopRequested(s)
    case Exit => s.(tracing := EXITING)
    case Rearm(granted, failed) => Rearmed(s, granted, failed)
  }

  /** The monitor right after it has seized init. */
  predicate Initial(s: State) {
    && s.tracing == TRACING && s.process == {} && s.stubs == {}
    && s.kernel.tracees == map[INIT := Tracee(Running, false, true, false, false, false)]
    && s.kernel.loose == map[] && s.kernel.passed == [] && s.kernel.seizeOk
  }

  ghost predicate Run(states: seq<State>, events: seq<Event>) {
    && |states| == |events| + 1
    && Initial(states[0])
    && forall n :: 0 <= n < |events| ==>
         Enabled(states[n], events[n]) && states[n + 1] == Apply(states[n], events[n])
  }

  // ---------- what every reachable state satisfies ----------

  /** Init is traced exactly while it should be, and a requested stop is still on its way. */
  ghost predicate InitTraced(s: State) {
    var t := s.kernel.tracees;
    && (s.tracing == STOPPED ==> INIT !in t)
    && (s.tracing == TRACING || s.tracing == STOPPING ==> (INIT in t <==> s.kernel.seizeOk))
    && (s.tracing == STOPPING && INIT in t ==> t[INIT].interrupt || t[INIT].phase == Halted(Interrupted))
    && (INIT in t ==> t[INIT].traceFork && t[INIT].phase != Halted(Died))
  }

  /** Every attached process that has reported a stop is in exactly one of the handler's roles. */
  ghost predicate Covered(s: State) {
    && INIT !in s.process && INIT !in s.stubs
    && s.process !! s.stubs
    && (forall pid :: pid in s.stubs ==> pid in s.kernel.tracees && s.kernel.tracees[pid].reported)
    && (forall pid :: pid in s.kernel.tracees && pid != INIT && s.kernel.tracees[pid].reported ==>
          (pid in s.process || pid in s.stubs) && s.kernel.tracees[pid].traceExec)
  }

  /** No stop the monitor has reaped is left unanswered, and none of its SIGSTOPs is pending on
      a process it still traces. */
  ghost predicate AllSettled(s: State) {
    forall pid :: pid in s.kernel.tracees ==>
      !s.kernel.tracees[pid].phase.Reaped? && !s.kernel.tracees[pid].stopQueued && pid !in s.kernel.loose
  }

  /** A process attached and not yet reported is in its first, unreaped stop. */
  ghost predicate FreshHalted(s: State) {
    forall pid :: pid in s.kernel.tracees && pid != INIT && !s.kernel.tracees[pid].reported ==>
      s.kernel.tracees[pid].phase.Halted?
  }

  /** Nothing suppressed has ever been passed on, and signals are passed to parents only. */
  ghost predicate Shielded(s: State) {
    forall n :: 0 <= n < |s.kernel.passed| ==>
      !Suppressed(s.kernel.passed[n].pid, s.kernel.passed[n].sig)
  }

  ghost predicate Inv(s: State) {
    InitTraced(s) && Covered(s) && AllSettled(s) && FreshHalted(s) && Shielded(s)
  }

  lemma KernelStep(s: State, e: Event)
    requires Inv(s) && Enabled(s, e)
    requires e.KFork? || e.KStop? || e.KKill? || e.KLoose?
    ensures Inv(Apply(s, e))
  {
  }

  lemma StartedInv(s: State, granted: bool)
    requires Inv(s)
    ensures Inv(Started(s, granted))
  {
  }

  lemma StopRequestedInv(s: State)
    requires Inv(s)
    ensures Inv(StopRequested(s))
  {
  }

  function Resumed(k: Kernel, pid: Pid, sig: nat): Kernel
    requires pid in k.tracees
  {
    k.(tracees := k.tracees[pid := k.tracees[pid].(phase := Running, reported := true)],
       passed := if sig == 0 then k.passed else k.passed + [Passed(pid, sig)])
  }

  lemma ResumedForm(k: Kernel, pid: Pid, st: Status, sig: nat)
    requires pid in k.tracees && st != Died && !k.tracees[pid].stopQueued
    ensures Cont(Take(k, pid, st), pid, sig) == Resumed(k, pid, sig)
  {
  }

  lemma ResumedInv(s: State, pid: Pid, sig: nat)
    requires Inv(s) && (pid == INIT || pid in s.stubs) && pid in s.kernel.tracees
    requires !Suppressed(pid, sig)
    requires pid == INIT && s.kernel.tracees[pid].phase == Halted(Interrupted) ==> s.tracing != STOPPING
    ensures Inv(s.(kernel := Resumed(s.kernel, pid, sig)))
  {
  }

  lemma ReapParent(s: State, pid: Pid, i: Input)
    requires Inv(s) && Enabled(s, Reap(pid, i)) && (pid == INIT || pid in s.stubs)
    ensures Inv(Apply(s, Reap(pid, i)))
  {
    var st := s.kernel.tracees[pid].phase.report;
    match Decide(s, pid, st, i)
    case Resume(sig) =>
      ResumedForm(s.kernel, pid, st, sig);
      ResumedInv(s, pid, sig);
    case _ =>
  }

  // The kernel after a reap of a candidate, in closed form.

  function Kept(k: Kernel, pid: Pid, traceFork: bool): Kernel
    requires pid in k.tracees
  {
    k.(tracees := k.tracees[pid := Tracee(Running, true, traceFork, true, k.tracees[pid].interrupt, k.tracees[pid].stopQueued)])
  }

  function Gone(k: Kernel, pid: Pid): Kernel {
    k.(tracees := k.tracees - {pid})
  }

  function LetGo(k: Kernel, pid: Pid, l: Loose): Kernel {
    Gone(k, pid).(loose := k.loose[pid := l])
  }

  lemma KeptForm(k: Kernel, pid: Pid, st: Status, traceFork: bool)
    requires pid in k.tracees && st != Died && !k.tracees[pid].stopQueued
    ensures Cont(SetOptions(Take(k, pid, st), pid, traceFork), pid, 0) == Kept(k, pid, traceFork)
  {
  }

  lemma ReleasedForm(k: Kernel, pid: Pid, st: Status)
    requires pid in k.tracees && !k.tracees[pid].stopQueued
    ensures Detach(Take(k, pid, st), pid) == if st == Died then Gone(k, pid) else LetGo(k, pid, Free)
  {
  }

  lemma NestedForm(k: Kernel, pid: Pid, nested: Status)
    requires pid in k.tracees && !k.tracees[pid].stopQueued
    ensures var n := NestedStop(Take(k, pid, Execed), pid, nested);
            && n.loose == k.loose && n.passed == k.passed && n.seizeOk == k.seizeOk
            && Gone(n, pid) == Gone(k, pid)
            && (pid in n.tracees <==> nested != Died)
            && (nested != Died ==>
                  && n.tracees[pid].phase == Reaped(nested)
                  && n.tracees[pid].stopQueued == (nested != Signal(SIGSTOP) && nested != Signal(SIGCONT)))
  {
    var taken := Take(k, pid, Execed);
    var went := Cont(QueueStop(taken, pid), pid, 0);
    assert Gone(went, pid).tracees == Gone(k, pid).tracees;
    assert Gone(NestedStop(taken, pid, nested), pid).tracees == Gone(went, pid).tracees;
  }

  lemma HandedOverForm(k: Kernel, pid: Pid, h: Handoff)
    requires pid in k.tracees && !k.tracees[pid].stopQueued
    ensures AfterFork(DetachStopped(NestedStop(Take(k, pid, Execed), pid, Signal(SIGSTOP)), pid), pid, h)
         == LetGo(k, pid, if h == Launched then Parked(true) else if h == SecondForkFailed then Parked(false) else Free)
  {
    NestedForm(k, pid, Signal(SIGSTOP));
  }

  lemma MissedForm(k: Kernel, pid: Pid, nested: Status)
    requires pid in k.tracees && !k.tracees[pid].stopQueued && nested != Signal(SIGSTOP)
    ensures Detach(NestedStop(Take(k, pid, Execed), pid, nested), pid)
         == if nested == Died then Gone(k, pid) else LetGo(k, pid, if nested == Signal(SIGCONT) then Free else StopQueued)
  {
    NestedForm(k, pid, nested);
  }

  /** What a reap makes of a candidate. */
  datatype Fate = Stays(traceFork: bool) | Ends | Leaves(loose: Loose)

  function WithFate(k: Kernel, pid: Pid, f: Fate): Kernel
    requires pid in k.tracees
  {
    match f
    case Stays(traceFork) => Kept(k, pid, traceFork)
    case Ends => Gone(k, pid)
    case Leaves(l) => LetGo(k, pid, l)
  }

  function FateOf(d: Settlement, st: Status, i: Input): Fate {
    match d
    case Track => if st == Died then Ends else Stays(false)
    case Promote => Stays(true)
    case HandOver =>
      Leaves(if i.handoff == Launched then Parked(true) else if i.handoff == SecondForkFailed then Parked(false) else Free)
    case HandOverMissed =>
      if i.nested == Died then Ends else Leaves(if i.nested == Signal(SIGCONT) then Free else StopQueued)
    case _ => if st == Died then Ends else Leaves(Free)
  }

  predicate Candidate(s: State, pid: Pid) {
    && pid in s.kernel.tracees && pid != INIT && pid !in s.stubs
    && s.kernel.tracees[pid].phase.Halted? && !s.kernel.tracees[pid].stopQueued
  }

  predicate MayInterrupt(s: State, s': State, k: Kernel) {
    || (k == s.kernel && s'.tracing == s.tracing)
    || (k == Interrupt(s.kernel) && s.tracing == TRACING && s'.tracing == STOPPING)
  }

  /** The kernel half of a candidate's reap depends on the fate alone. */
  lemma CandidateForm(s: State, pid: Pid, st: Status, i: Input, d: Settlement, s': State) returns (k: Kernel)
    requires Candidate(s, pid) && st == s.kernel.tracees[pid].phase.report
    requires d == Decide(s, pid, st, i) && s' == Settle(s.(kernel := Take(s.kernel, pid, st)), pid, st, i)
    ensures pid in k.tracees && MayInterrupt(s, s', k)
    ensures s'.kernel == WithFate(k, pid, FateOf(d, st, i))
    ensures s'.process == if d.Track? then s.process + {pid} else if d.HandOver? then s.process else s.process - {pid}
    ensures s'.stubs == if d.Promote? then s.stubs + {pid} else s.stubs
  {
    k := s.kernel;
    match d {
      case Track => if st != Died { KeptForm(k, pid, st, false); }
      case Promote => KeptForm(k, pid, st, true);
      case HandOver => HandedOverForm(k, pid, i.handoff);
      case HandOverMissed => MissedForm(k, pid, i.nested);
      case Release(refused) =>
        if refused && s.tracing == TRACING {
          k := Interrupt(k);
          assert Interrupt(Take(s.kernel, pid, st)) == Take(k, pid, st);
        }
        ReleasedForm(k, pid, st);
      case _ =>
    }
  }

  lemma FateKeepsInv(s: State, pid: Pid, k: Kernel, f: Fate, s': State)
    requires Inv(s) && Candidate(s, pid) && MayInterrupt(s, s', k)
    requires pid in k.tracees && s'.kernel == WithFate(k, pid, f)
    requires s'.process - {pid} == s.process - {pid} && s'.stubs - {pid} == s.stubs
    requires s'.process !! s'.stubs && if f.Stays? then pid in s'.process + s'.stubs else pid !in s'.stubs
    ensures Inv(s')
  {
    assert forall q :: q != pid ==> (q in s'.process <==> q in s'.process - {pid}) && (q in s.process <==> q in s.process - {pid});
    assert forall q :: q != pid ==> (q in s'.stubs <==> q in s'.stubs - {pid});
  }

  lemma ReapCandidate(s: State, pid: Pid, i: Input)
    requires Inv(s) && Enabled(s, Reap(pid, i)) && Candidate(s, pid)
    ensures Inv(Apply(s, Reap(pid, i)))
  {
    var st := s.kernel.tracees[pid].phase.report;
    var d := Decide(s, pid, st, i);
    var s' := Apply(s, Reap(pid, i));
    var k := CandidateForm(s, pid, st, i, d, s');
    FateKeepsInv(s, pid, k, FateOf(d, st, i), s');
  }

  /** The invariant is inductive over every event, of the kernel, the user and the monitor. */
  lemma InvStep(s: State, e: Event)
    requires Inv(s) && Enabled(s, e)
    ensures Inv(Apply(s, e))
  {
    match e
    case Reap(pid, i) =>
      if pid == INIT || pid in s.stubs {
        ReapParent(s, pid, i);
      } else {
        ReapCandidate(s, pid, i);
      }
    case ReapOwn(_, _, _) =>
    case KFork(_, _) => KernelStep(s, e);
    case KStop(_, _) => KernelStep(s, e);
    case KKill(_) => KernelStep(s, e);
    case KLoose(_) => KernelStep(s, e);
    case Start(granted) => StartedInv(s, granted);
    case Stop => StopRequestedInv(s);
    case Rearm(granted, failed) =>
      StartedInv(s, granted);
      StopRequestedInv(Started(s, granted));
    case Exit =>
  }

  lemma {:induction false} RunInv(states: seq<State>, events: seq<Event>, n: nat)
    requires Run(states, events) && n < |states|
    ensures Inv(states[n])
  {
    if n > 0 {
      RunInv(states, events, n - 1);
      InvStep(states[n - 1], events[n - 1]);
    }
  }

  // ---------- what follows for whole runs ----------

  /** In every interleaving: init is traced in TRACING and STOPPING exactly if its last seize was
      granted, never in STOPPED, and an outstanding stop request always has its stop coming. */
  lemma InitFollowsState(states: seq<State>, events: seq<Event>, n: nat)
    requires Run(states, events) && n < |states|
    ensures var s := states[n]; var t := s.kernel.tracees;
            && (s.tracing == STOPPED ==> INIT !in t)
            && (s.tracing == TRACING || s.tracing == STOPPING ==> (INIT in t <==> s.kernel.seizeOk))
            && (s.tracing == STOPPING && INIT in t ==> t[INIT].interrupt || t[INIT].phase == Halted(Interrupted))
  {
    RunInv(states, events, n);
  }

  lemma {:induction false} ExitingIsFinal(states: seq<State>, events: seq<Event>, m: nat, n: nat)
    requires Run(states, events) && m <= n < |states|
    requires states[m].tracing == EXITING
    ensures states[n].tracing == EXITING
    decreases n - m
  {
    if m < n {
      assert states[m + 1] == Apply(states[m], events[m]);
      ExitingIsFinal(states, events, m + 1, n);
    }
  }

  /** In every interleaving the two pid sets are disjoint, exclude init, and with init cover
      every attached process that has reported a stop; and no reaped stop is left unanswered. */
  lemma NoTraceeForgotten(states: seq<State>, events: seq<Event>, n: nat, pid: Pid)
    requires Run(states, events) && n < |states|
    ensures var s := states[n]; var t := s.kernel.tracees;
            && s.process !! s.stubs && INIT !in s.process + s.stubs
            && (pid in t && t[pid].reported ==> pid == INIT || (pid in s.process + s.stubs && t[pid].traceExec))
            && (pid in t ==> !t[pid].phase.Reaped?)
            && (pid in s.stubs ==> pid in t)
  {
    RunInv(states, events, n);
  }

  /** No parent is ever handed a job-control stop, and no stub zygote a SIGCHLD. */
  lemma ParentsShielded(states: seq<State>, events: seq<Event>, n: nat, p: Passed)
    requires Run(states, events) && n < |states| && p in states[n].kernel.passed
    ensures p.sig != SIGSTOP && p.sig != SIGTSTP && p.sig != SIGTTIN && p.sig != SIGTTOU
    ensures p.sig == SIGCHLD ==> p.pid == INIT
  {
    RunInv(states, events, n);
  }

  // ---------- single reaps ----------

  /** A reaped report ends with the process running again, let go, or dead, by that report or by
      the nested one of a hand-over, and touches no other process but init, whose interrupt it may
      raise. */
  ghost predicate SettledReap(s: State, pid: Pid, i: Input, s': State)
    requires pid in s.kernel.tracees && s.kernel.tracees[pid].phase.Halted?
  {
    var t, t' := s.kernel.tracees, s'.kernel.tracees;
    var st := t[pid].phase.report;
    && (pid in t' ==> t'[pid].phase == Running && st != Died)
    && (pid !in t' ==>
          pid in s'.kernel.loose || st == Died || (Decide(s, pid, st, i).HandOverMissed? && i.nested == Died))
    && t'.Keys - {pid} == t.Keys - {pid}
    && (forall q :: q in t && q != pid && q != INIT ==> q in t' && t'[q] == t[q])
    && (pid != INIT && INIT in t ==> INIT in t' && (t'[INIT] == t[INIT] || t'[INIT] == t[INIT].(interrupt := true)))
  }

  lemma EveryReapSettles(s: State, pid: Pid, i: Input)
    requires Inv(s) && Enabled(s, Reap(pid, i))
    ensures SettledReap(s, pid, i, Apply(s, Reap(pid, i)))
  {
    var st := s.kernel.tracees[pid].phase.report;
    var s' := Apply(s, Reap(pid, i));
    if Candidate(s, pid) {
      var d := Decide(s, pid, st, i);
      var k := CandidateForm(s, pid, st, i, d, s');
      FateSettles(s, pid, k, d, s', i);
    } else {
      ParentSettles(s, pid, i);
    }
  }

  lemma FateSettles(s: State, pid: Pid, k: Kernel, d: Settlement, s': State, i: Input)
    requires Candidate(s, pid) && MayInterrupt(s, s', k) && pid in k.tracees
    requires d == Decide(s, pid, s.kernel.tracees[pid].phase.report, i)
    requires s'.kernel == WithFate(k, pid, FateOf(d, s.kernel.tracees[pid].phase.report, i))
    ensures SettledReap(s, pid, i, s')
  {
  }

  lemma ParentSettles(s: State, pid: Pid, i: Input)
    requires Inv(s) && Enabled(s, Reap(pid, i)) && (pid == INIT || pid in s.stubs)
    ensures SettledReap(s, pid, i, Apply(s, Reap(pid, i)))
  {
  }

  /** A signal that stops a parent, init or a stub zygote, is passed on exactly if it is neither a
      job-control stop nor a SIGCHLD of a stub; and no event passes anything else on. */
  lemma PassedExactly(s: State, e: Event)
    requires Inv(s) && Enabled(s, e)
    ensures var t := s.kernel.tracees;
            Apply(s, e).kernel.passed == s.kernel.passed +
              if e.Reap? && (e.pid == INIT || e.pid in s.stubs) && t[e.pid].phase.report.Signal?
                 && t[e.pid].phase.report.sig !in {SIGSTOP, SIGTSTP, SIGTTIN, SIGTTOU}
                 && (t[e.pid].phase.report.sig == SIGCHLD ==> e.pid == INIT)
              then [Passed(e.pid, t[e.pid].phase.report.sig)]
              else []
  {
    if e.Reap? && Candidate(s, e.pid) {
      var st := s.kernel.tracees[e.pid].phase.report;
      var k := CandidateForm(s, e.pid, st, e.i, Decide(s, e.pid, st, e.i), Apply(s, e));
    }
  }

  /** What becomes of a parent: it goes on with its options as they were, unless it died or is init
      in the stop that was asked for. */
  lemma ParentOutcome(s: State, pid: Pid, i: Input)
    requires Inv(s) && Enabled(s, Reap(pid, i)) && (pid == INIT || pid in s.stubs)
    ensures var s' := Apply(s, Reap(pid, i));
            var t, t' := s.kernel.tracees, s'.kernel.tracees;
            var asked := pid == INIT && s.tracing == STOPPING && t[pid].phase.report == Interrupted;
            && (pid in t' <==> t[pid].phase.report != Died && !asked)
            && (pid in t' ==> t'[pid] == t[pid].(phase := Running, reported := true))
            && (asked ==> INIT in s'.kernel.loose && s'.kernel.loose[INIT] == Free)
            && s'.tracing == (if asked then STOPPED else s.tracing) && s'.process == s.process
            && s'.stubs == if t[pid].phase.report == Died then s.stubs - {pid} else s.stubs
  {
  }

  /** An exec of the zygote's program that is looked at while tracing. */
  predicate ZygoteExec(s: State, pid: Pid, i: Input) {
    && pid in s.process && pid in s.kernel.tracees && s.kernel.tracees[pid].phase == Halted(Execed)
    && s.tracing == TRACING && i.program == TargetZygote
  }

  predicate StubExec(s: State, pid: Pid, i: Input) {
    pid in s.process && pid in s.kernel.tracees && s.kernel.tracees[pid].phase == Halted(Execed) && i.program == StubZygote
  }

  /** What becomes of any other process: it is a candidate from its first report to its exec; an
      exec makes a stub zygote of it, hands it over, or ends the interest in it, as does everything
      unexpected; and an injection that cannot be prepared stops the monitor. */
  lemma CandidateOutcome(s: State, pid: Pid, i: Input)
    requires Inv(s) && Enabled(s, Reap(pid, i)) && pid != INIT && pid !in s.stubs
    ensures var s' := Apply(s, Reap(pid, i));
            var t, t' := s.kernel.tracees, s'.kernel.tracees;
            var st := t[pid].phase.report;
            var on := pid !in s.process || st == Interrupted;
            var zygote := ZygoteExec(s, pid, i);
            && s'.stubs == s.stubs + (if StubExec(s, pid, i) then {pid} else {})
            && (pid in s'.process <==> on || (zygote && i.prepared && i.nested == Signal(SIGSTOP)))
            && (pid in t' <==> st != Died && (on || StubExec(s, pid, i)))
            && (pid in t' ==> t'[pid].phase == Running && t'[pid].traceExec && t'[pid].traceFork == StubExec(s, pid, i))
            && s'.tracing == (if zygote && !i.prepared then STOPPING else s.tracing)
            && (INIT in t ==> INIT in t' && t'[INIT].interrupt == (t[INIT].interrupt || (zygote && !i.prepared)))
            && (pid !in t' && st != Died && !(zygote && i.prepared) ==> pid in s'.kernel.loose && s'.kernel.loose[pid] == Free)
            && (zygote && i.prepared && i.nested == Signal(SIGSTOP) ==>
                  pid in s'.kernel.loose
                  && s'.kernel.loose[pid] == match i.handoff
                                             case Launched => Parked(true)
                                             case SecondForkFailed => Parked(false)
                                             case _ => Free)
  {
    var st := s.kernel.tracees[pid].phase.report;
    var d := Decide(s, pid, st, i);
    var k := CandidateForm(s, pid, st, i, d, Apply(s, Reap(pid, i)));
  }

  /** A child of the monitor's own that is no daemon is taken for a new process, and forgotten again
      if it is reaped a second time; nothing else changes. */
  lemma OwnChildOutcome(s: State, pid: Pid, daemonExit: bool, i: Input)
    requires Inv(s) && Enabled(s, ReapOwn(pid, daemonExit, i))
    ensures Apply(s, ReapOwn(pid, daemonExit, i)) ==
            s.(process := if daemonExit then s.process else if pid in s.process then s.process - {pid} else s.process + {pid})
  {
  }

  /** What a request comes to. One that wants tracing ends any stop, and seizes init again after
      it; one that wants a stop, which a failed rearm does too, interrupts init; none matters once
      the monitor is to exit, and none touches any other process. */
  lemma RequestOutcome(s: State, e: Event)
    requires Inv(s) && (e.Start? || e.Stop? || e.Rearm?)
    ensures var s' := Apply(s, e);
            var t, t' := s.kernel.tracees, s'.kernel.tracees;
            var wanted := (e.Start? || e.Rearm?) && s.tracing != EXITING;
            var stopped := (e.Stop? || (e.Rearm? && e.failed)) && (wanted || s.tracing == TRACING);
            && s'.tracing == (if stopped then STOPPING else if wanted then TRACING else s.tracing)
            && (INIT in t' <==> if wanted && s.tracing == STOPPED then e.granted else INIT in t)
            && (INIT in t' && wanted && s.tracing == STOPPED ==> t'[INIT].phase == Running && t'[INIT].traceFork)
            && (INIT in t' && INIT in t ==> t'[INIT] == t[INIT].(interrupt := t[INIT].interrupt || stopped))
            && (INIT in t' && stopped ==> t'[INIT].interrupt)
            && t' - {INIT} == t - {INIT} && s'.process == s.process && s'.stubs == s.stubs
  {
  }

  /** A process let go that nothing is going to wake up. */
  predicate Forgotten(k: Kernel, pid: Pid) {
    pid in k.loose && (k.loose[pid] == Parked(false) || k.loose[pid] == StopQueued)
  }

  lemma FateForgets(k: Kernel, pid: Pid, f: Fate)
    requires pid in k.tracees && pid !in k.loose
    ensures Forgotten(WithFate(k, pid, f), pid) <==> f == Leaves(Parked(false)) || f == Leaves(StopQueued)
  {
  }

  lemma ParentNotForgotten(s: State, pid: Pid, i: Input)
    requires Inv(s) && Enabled(s, Reap(pid, i)) && (pid == INIT || pid in s.stubs)
    ensures !Forgotten(Apply(s, Reap(pid, i)).kernel, pid)
  {
  }

  /** A reap leaves a process stopped for good exactly if it hands a zygote over and either the
      second fork fails, whose error the first parent drops, or the zygote stops for something
      else before the SIGSTOP, which is then still queued when it is detached. */
  lemma ForgottenExactly(s: State, pid: Pid, i: Input)
    requires Inv(s) && Enabled(s, Reap(pid, i))
    ensures Forgotten(Apply(s, Reap(pid, i)).kernel, pid) <==>
            && s.kernel.tracees[pid].phase.report == Execed
            && pid in s.process && s.tracing == TRACING && i.program == TargetZygote && i.prepared
            && if i.nested == Signal(SIGSTOP) then i.handoff == SecondForkFailed
               else i.nested != Died && i.nested != Signal(SIGCONT)
  {
    var st := s.kernel.tracees[pid].phase.report;
    if Candidate(s, pid) {
      var d := Decide(s, pid, st, i);
      var k := CandidateForm(s, pid, st, i, d, Apply(s, Reap(pid, i)));
      FateForgets(k, pid, FateOf(d, st, i));
    } else {
      ParentNotForgotten(s, pid, i);
    }
  }

  lemma LooseFrame(s: State, e: Event, q: Pid)
    requires Enabled(s, e) && Forgotten(Apply(s, e).kernel, q) && !(e.Reap? && e.pid == q) && Inv(s)
    ensures Forgotten(s.kernel, q)
  {
    if e.Reap? && Candidate(s, e.pid) {
      var st := s.kernel.tracees[e.pid].phase.report;
      var k := CandidateForm(s, e.pid, st, e.i, Decide(s, e.pid, st, e.i), Apply(s, e));
    }
  }

  predicate Smooth(i: Input) {
    && i.handoff != SecondForkFailed
    && (i.nested == Died || i.nested == Signal(SIGSTOP) || i.nested == Signal(SIGCONT))
  }

  /** In every run where hand-overs go smoothly, nothing the monitor ever let go is forgotten. */
  lemma {:induction false} NothingForgotten(states: seq<State>, events: seq<Event>, n: nat, pid: Pid)
    requires Run(states, events) && n < |states|
    requires forall m :: 0 <= m < |events| && events[m].Reap? ==> Smooth(events[m].i)
    ensures !Forgotten(states[n].kernel, pid)
  {
    if n > 0 {
      var s, e := states[n - 1], events[n - 1];
      RunInv(states, events, n - 1);
      NothingForgotten(states, events, n - 1, pid);
      if e.Reap? && e.pid == pid {
        ForgottenExactly(s, pid, e.i);
      } else if Forgotten(states[n].kernel, pid) {
        LooseFrame(s, e, pid);
      }
    }
  }

  /** While the monitor is tracing, no stop of init detaches it: a reap leaves it attached and
      running. */
  lemma TracingResumesInit(s: State, i: Input)
    requires Inv(s) && s.tracing == TRACING && Enabled(s, Reap(INIT, i))
    ensures var s' := Apply(s, Reap(INIT, i));
            && s'.tracing == TRACING && INIT in s'.kernel.tracees
            && s'.kernel.tracees[INIT].phase == Running
  {
  }

  /** Nor does anything else that happens before it stops tracing. */
  lemma TracingKeepsInit(s: State, e: Event)
    requires Inv(s) && s.tracing == TRACING && Enabled(s, e) && INIT in s.kernel.tracees
    ensures INIT in Apply(s, e).kernel.tracees
  {
    if e.Reap? && Candidate(s, e.pid) {
      var st := s.kernel.tracees[e.pid].phase.report;
      var k := CandidateForm(s, e.pid, st, e.i, Decide(s, e.pid, st, e.i), Apply(s, e));
    }
  }

  /** A start that overtakes a requested stop: from then on, through any events that leave the
      monitor tracing, whether the stop of init was halted already or is still to come, init stays
      attached and every reap of it lets it run. */
  lemma {:induction false} StartCancelsStop(s: State, granted: bool, states: seq<State>, events: seq<Event>, n: nat)
    requires Inv(s) && s.tracing == STOPPING && INIT in s.kernel.tracees
    requires Onward(Started(s, granted), states, events) && n < |states|
    requires forall m :: 0 <= m <= n ==> states[m].tracing == TRACING
    ensures Inv(states[n]) && INIT in states[n].kernel.tracees
    ensures n > 0 && events[n - 1].Reap? && events[n - 1].pid == INIT ==> states[n].kernel.tracees[INIT].phase == Running
  {
    if n == 0 {
      StartedInv(s, granted);
    } else {
      StartCancelsStop(s, granted, states, events, n - 1);
      InvStep(states[n - 1], events[n - 1]);
      TracingKeepsInit(states[n - 1], events[n - 1]);
      if events[n - 1].Reap? && events[n - 1].pid == INIT {
        TracingResumesInit(states[n - 1], events[n - 1].i);
      }
    }
  }

  /** A run that goes on from a state. */
  ghost predicate Onward(s: State, states: seq<State>, events: seq<Event>) {
    && |states| == |events| + 1 && states[0] == s
    && forall n :: 0 <= n < |events| ==>
         Enabled(states[n], events[n]) && states[n + 1] == Apply(states[n], events[n])
  }

  ghost predicate Path(s: State, events: seq<Event>, s': State)
    decreases |events|
  {
    if events == [] then s == s'
    else Enabled(s, events[0]) && Path(Apply(s, events[0]), events[1..], s')
  }

  lemma StopFromTrap(s: State, i: Input) returns (s': State)
    requires Inv(s) && s.tracing == STOPPING && INIT in s.kernel.tracees
    requires s.kernel.tracees[INIT].phase == Halted(Interrupted)
    ensures Enabled(s, Reap(INIT, i)) && s' == Apply(s, Reap(INIT, i)) && Path(s, [Reap(INIT, i)], s')
    ensures s'.tracing == STOPPED && INIT !in s'.kernel.tracees
  {
    s' := Apply(s, Reap(INIT, i));
    assert Path(s', [], s');
  }

  lemma StopFromRunning(s: State, i: Input) returns (s': State)
    requires Inv(s) && s.tracing == STOPPING && INIT in s.kernel.tracees
    requires s.kernel.tracees[INIT].phase.Running?
    ensures Path(s, [KStop(INIT, Interrupted), Reap(INIT, i)], s')
    ensures s'.tracing == STOPPED && INIT !in s'.kernel.tracees
  {
    var events := [KStop(INIT, Interrupted), Reap(INIT, i)];
    var trapped := Apply(s, events[0]);
    KernelStep(s, events[0]);
    s' := StopFromTrap(trapped, i);
    assert events[1..] == [Reap(INIT, i)];
  }

  /** A requested stop can always be completed by init's own stops alone... */
  lemma StopCompletes(s: State, i: Input) returns (events: seq<Event>, s': State)
    requires Inv(s) && s.tracing == STOPPING && INIT in s.kernel.tracees
    ensures forall e :: e in events ==> e == KStop(INIT, Interrupted) || e == Reap(INIT, i)
    ensures Path(s, events, s')
    ensures s'.tracing == STOPPED && INIT !in s'.kernel.tracees
  {
    var t := s.kernel.tracees[INIT];
    if t.phase.Running? {
      s' := StopFromRunning(s, i);
      events := [KStop(INIT, Interrupted), Reap(INIT, i)];
    } else if t.phase.report == Interrupted {
      s' := StopFromTrap(s, i);
      events := [Reap(INIT, i)];
    } else {
      var went := Apply(s, Reap(INIT, i));
      ReapParent(s, INIT, i);
      s' := StopFromRunning(went, i);
      events := [Reap(INIT, i), KStop(INIT, Interrupted), Reap(INIT, i)];
      assert events[1..] == [KStop(INIT, Interrupted), Reap(INIT, i)];
    }
  }

  /** ...unless the seize before it was refused: then nothing but a start, a rearm or an exit
      ends the STOPPING state. */
  lemma StopWithoutInit(s: State, e: Event)
    requires Inv(s) && s.tracing == STOPPING && INIT !in s.kernel.tracees
    requires Enabled(s, e) && !e.Start? && !e.Rearm? && !e.Exit?
    ensures Apply(s, e).tracing == STOPPING && INIT !in Apply(s, e).kernel.tracees
  {
  }
}
