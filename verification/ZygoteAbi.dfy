/**
 One ABI's zygote and daemon as the monitor sees them: crash-loop detection, daemon creation, the
 confirmed pids, and the rearm pass with its verdict. What the manager reads from /proc or learns
 from an injector's exit is a parameter.
 */
module ZygoteAbi {
  type Pid = nat

  const CRASH_LOOP_RETRY_COUNT := 5
  const CRASH_LOOP_WINDOW_SECONDS := 30

  datatype ZygoteState = NotInjected | Injected | NeedsRestart

  datatype RearmResult = Failed | NoZygote | Armed | AlreadyHooked | Injecting | RestartNeeded

  /** One process whose executable is the zygote program. */
  datatype Process = Process(pid: Pid, ppid: Pid, zygoteArgv: bool, comm: string)

  /** How waiting for an injector ends. */
  datatype AttachOutcome = TraceHooked | TraceMappedOnly | TraceFailed | InjectorDied | TimedOut | NotForked

  /** What a rearm finds out about one zygote when it gets to it. */
  datatype Look = Look(inFlight: bool, mapped: bool, attach: AttachOutcome)

  /** What the rearm loop does about one zygote. */
  datatype Action = LeaveToInjector | Attach | Skip | Restart

  function ActionFor(inFlight: bool, mapped: bool, confirmed: bool): Action {
    if inFlight then LeaveToInjector
    else if !mapped then Attach
    else if confirmed then Skip
    else Restart
  }

  predicate IsZygote(p: Process) {
    p.ppid == 1 && p.zygoteArgv
  }

  predicate IsSystemServer(p: Process) {
    p.ppid != 1 && p.comm == "system_server"
  }

  /** A listing of /proc names a process once. */
  predicate Distinct(scan: seq<Process>) {
    forall m, n :: 0 <= m < n < |scan| ==> scan[m].pid != scan[n].pid
  }

  function ZygotePids(scan: seq<Process>): set<Pid> {
    set n | 0 <= n < |scan| && IsZygote(scan[n]) :: scan[n].pid
  }

  /** The last system_server of the listing, or -1. */
  function ServerPid(scan: seq<Process>): (pid: int)
    ensures pid >= -1
  {
    if scan == [] then -1
    else
      var last := scan[|scan| - 1];
      if IsSystemServer(last) then last.pid else ServerPid(scan[..|scan| - 1])
  }

  /** The pids a confirmation may be kept for. */
  function Live(scan: seq<Process>): set<Pid> {
    ZygotePids(scan) + if ServerPid(scan) >= 0 then {ServerPid(scan)} else {}
  }

  // What the loop decides, given the confirmations it starts from.

  predicate Attached(look: Pid -> Look, confirmed: set<Pid>, z: Pid) {
    ActionFor(look(z).inFlight, look(z).mapped, z in confirmed) == Attach && look(z).attach == TraceHooked
  }

  predicate Stuck(look: Pid -> Look, confirmed: set<Pid>, z: Pid) {
    var a := ActionFor(look(z).inFlight, look(z).mapped, z in confirmed);
    a == Restart || (a == Attach && look(z).attach != TraceHooked)
  }

  predicate Confirmed(look: Pid -> Look, confirmed: set<Pid>, z: Pid) {
    ActionFor(look(z).inFlight, look(z).mapped, z in confirmed) == Skip
  }

  predicate AnyAttached(zygotes: set<Pid>, look: Pid -> Look, confirmed: set<Pid>) {
    exists z :: z in zygotes && Attached(look, confirmed, z)
  }

  predicate AnyStuck(zygotes: set<Pid>, look: Pid -> Look, confirmed: set<Pid>) {
    exists z :: z in zygotes && Stuck(look, confirmed, z)
  }

  predicate AnyConfirmed(zygotes: set<Pid>, look: Pid -> Look, confirmed: set<Pid>) {
    exists z :: z in zygotes && Confirmed(look, confirmed, z)
  }

  predicate AnyInFlight(zygotes: set<Pid>, look: Pid -> Look) {
    exists z :: z in zygotes && look(z).inFlight
  }

  function Newly(zygotes: set<Pid>, look: Pid -> Look, confirmed: set<Pid>): set<Pid> {
    set z | z in zygotes && Attached(look, confirmed, z)
  }

  lemma OneMoreZygote(zygotes: set<Pid>, z: Pid, look: Pid -> Look, confirmed: set<Pid>)
    ensures var more := zygotes + {z};
            && (AnyAttached(more, look, confirmed) <==> AnyAttached(zygotes, look, confirmed) || Attached(look, confirmed, z))
            && (AnyStuck(more, look, confirmed) <==> AnyStuck(zygotes, look, confirmed) || Stuck(look, confirmed, z))
            && (AnyConfirmed(more, look, confirmed) <==> AnyConfirmed(zygotes, look, confirmed) || Confirmed(look, confirmed, z))
            && (AnyInFlight(more, look) <==> AnyInFlight(zygotes, look) || look(z).inFlight)
            && Newly(more, look, confirmed)
               == Newly(zygotes, look, confirmed) + if Attached(look, confirmed, z) then {z} else {}
  {
    assert z in zygotes + {z};
  }

  predicate AllInFlight(zygotes: set<Pid>, look: Pid -> Look) {
    forall z :: z in zygotes ==> look(z).inFlight
  }

  /** Which of the old confirmations are dropped with the pruning does not matter to a zygote. */
  lemma SameConfirmations(zygotes: set<Pid>, look: Pid -> Look, a: set<Pid>, b: set<Pid>)
    requires forall z :: z in zygotes ==> (z in a <==> z in b)
    ensures forall z :: z in zygotes ==> (Attached(look, a, z) <==> Attached(look, b, z))
    ensures AnyAttached(zygotes, look, a) == AnyAttached(zygotes, look, b)
    ensures AnyStuck(zygotes, look, a) == AnyStuck(zygotes, look, b)
    ensures AnyConfirmed(zygotes, look, a) == AnyConfirmed(zygotes, look, b)
  {
    assert forall z :: z in zygotes ==> Stuck(look, a, z) == Stuck(look, b, z);
    assert forall z :: z in zygotes ==> Confirmed(look, a, z) == Confirmed(look, b, z);
  }

  /** The verdict as its documentation words it. */
  function Verdict(zygotes: set<Pid>, look: Pid -> Look, confirmed: set<Pid>, serverFailed: bool): RearmResult {
    if serverFailed || AnyStuck(zygotes, look, confirmed) then RestartNeeded
    else if AnyAttached(zygotes, look, confirmed) then Armed
    else if AllInFlight(zygotes, look) then Injecting
    else AlreadyHooked
  }

  /** AlreadyHooked vouches for a zygote: at least one is confirmed, and none is in any other
      state than confirmed or in the hands of its injector. */
  lemma AlreadyHookedMeans(zygotes: set<Pid>, look: Pid -> Look, confirmed: set<Pid>, serverFailed: bool)
    ensures Verdict(zygotes, look, confirmed, serverFailed) == AlreadyHooked <==>
            && !serverFailed
            && AnyConfirmed(zygotes, look, confirmed)
            && (forall z :: z in zygotes ==> Confirmed(look, confirmed, z) || look(z).inFlight)
  {
    if z :| z in zygotes && !look(z).inFlight {
      assert Confirmed(look, confirmed, z) || Stuck(look, confirmed, z) || Attached(look, confirmed, z);
    }
  }

  lemma LastVerdict(zygotes: set<Pid>, look: Pid -> Look, confirmed: set<Pid>)
    requires zygotes != {} && !AnyStuck(zygotes, look, confirmed) && !AnyAttached(zygotes, look, confirmed)
    ensures AllInFlight(zygotes, look) <==> !AnyConfirmed(zygotes, look, confirmed) && AnyInFlight(zygotes, look)
  {
    AlreadyHookedMeans(zygotes, look, confirmed, false);
    if AllInFlight(zygotes, look) {
      var z :| z in zygotes;
      assert look(z).inFlight;
    }
  }

  /** What the attaching half of a rearm comes to: its verdict, the confirmations it leaves, and
      the state it shows for the zygote. */
  datatype Pass = Pass(result: RearmResult, hooked: set<Pid>, zygote: ZygoteState)

  function AttachPass(zygotes: set<Pid>, serverPid: int, look: Pid -> Look, base: set<Pid>, serverAttach: AttachOutcome): Pass
    requires serverPid >= -1
  {
    var attach := serverPid >= 0 && AnyAttached(zygotes, look, base);
    Pass(Verdict(zygotes, look, base, attach && serverAttach != TraceHooked),
         base + Newly(zygotes, look, base)
              + (if attach && serverAttach == TraceHooked then {serverPid} else {}),
         if AnyStuck(zygotes, look, base) then NeedsRestart
         else if AnyAttached(zygotes, look, base) || AnyConfirmed(zygotes, look, base) then Injected
         else NotInjected)
  }

  /** The verdict in the order the rearm comes to it. */
  lemma PassFrom(zygotes: set<Pid>, serverPid: int, look: Pid -> Look, base: set<Pid>, serverAttach: AttachOutcome)
    requires serverPid >= -1 && zygotes != {}
    ensures var restart, armed := AnyStuck(zygotes, look, base), AnyAttached(zygotes, look, base);
            var p := AttachPass(zygotes, serverPid, look, base, serverAttach);
            p.result == if restart || (serverPid >= 0 && armed && serverAttach != TraceHooked) then RestartNeeded
                        else if armed then Armed
                        else if AnyConfirmed(zygotes, look, base) || !AnyInFlight(zygotes, look) then AlreadyHooked
                        else Injecting
  {
    if !AnyStuck(zygotes, look, base) && !AnyAttached(zygotes, look, base) {
      LastVerdict(zygotes, look, base);
    }
  }

  /** A rearm prunes the confirmations it starts with, then attaches. */
  function RearmPass(scan: seq<Process>, look: Pid -> Look, base: set<Pid>, serverAttach: AttachOutcome): Pass {
    AttachPass(ZygotePids(scan), ServerPid(scan), look, base * Live(scan), serverAttach)
  }

  // In terms of the listing and of what each look finds, without the loop's own words:

  /** A process of the listing that init started, and that argv says is a zygote. */
  predicate ListsZygote(scan: seq<Process>, z: int) {
    exists n :: 0 <= n < |scan| && scan[n].pid == z && scan[n].ppid == 1 && scan[n].zygoteArgv
  }

  predicate NamesServer(p: Process) {
    p.ppid != 1 && p.comm == "system_server"
  }

  /** The last of the listing that somebody else started and that is named system_server. */
  predicate ListsServer(scan: seq<Process>, v: int) {
    exists n :: 0 <= n < |scan| && scan[n].pid == v && NamesServer(scan[n])
                && forall m :: n < m < |scan| ==> !NamesServer(scan[m])
  }

  lemma ZygotePidsAre(scan: seq<Process>, z: Pid)
    ensures z in ZygotePids(scan) <==> ListsZygote(scan, z)
  {
  }

  lemma {:induction false} ServerPidIs(scan: seq<Process>, v: int)
    ensures ListsServer(scan, v) <==> v >= 0 && v == ServerPid(scan)
  {
    if scan != [] {
      var last := |scan| - 1;
      ServerPidIs(scan[..last], v);
      if !IsSystemServer(scan[last]) {
        assert forall n :: 0 <= n < last ==> scan[..last][n] == scan[n];
      }
    }
  }

  /** Hooks installed in a zygote that had no library. */
  predicate TakesHooks(l: Look) {
    !l.inFlight && !l.mapped && l.attach == TraceHooked
  }

  /** A zygote that is in nobody's hands and has no hooks to show, as far as `vouched` tells. */
  predicate LacksHooks(l: Look, vouched: bool) {
    !l.inFlight && if l.mapped then !vouched else l.attach != TraceHooked
  }

  predicate HasHooks(l: Look, vouched: bool) {
    !l.inFlight && l.mapped && vouched
  }

  ghost predicate Arms(scan: seq<Process>, look: Pid -> Look) {
    exists z: Pid :: ListsZygote(scan, z) && TakesHooks(look(z))
  }

  ghost predicate Misses(scan: seq<Process>, look: Pid -> Look, base: set<Pid>) {
    exists z: Pid :: ListsZygote(scan, z) && LacksHooks(look(z), z in base)
  }

  ghost predicate Vouches(scan: seq<Process>, look: Pid -> Look, base: set<Pid>) {
    exists z: Pid :: ListsZygote(scan, z) && HasHooks(look(z), z in base)
  }

  ghost predicate FailsServer(scan: seq<Process>, look: Pid -> Look, serverAttach: AttachOutcome) {
    Arms(scan, look) && serverAttach != TraceHooked && exists v: Pid :: ListsServer(scan, v)
  }

  lemma PassWords(scan: seq<Process>, look: Pid -> Look, base: set<Pid>)
    ensures var zygotes := ZygotePids(scan);
            && (AnyAttached(zygotes, look, base) <==> Arms(scan, look))
            && (AnyStuck(zygotes, look, base) <==> Misses(scan, look, base))
            && (AnyConfirmed(zygotes, look, base) <==> Vouches(scan, look, base))
  {
    forall z: Pid
      ensures z in ZygotePids(scan) <==> ListsZygote(scan, z)
      ensures Attached(look, base, z) <==> TakesHooks(look(z))
      ensures Stuck(look, base, z) <==> LacksHooks(look(z), z in base)
      ensures Confirmed(look, base, z) <==> HasHooks(look(z), z in base)
    {
      ZygotePidsAre(scan, z);
    }
  }

  /** The verdict of a pass and the state it shows, by what the looks found and the confirmations
      from before the pruning. */
  lemma RearmPassMeans(scan: seq<Process>, look: Pid -> Look, base: set<Pid>, serverAttach: AttachOutcome)
    ensures var p := RearmPass(scan, look, base, serverAttach);
            var restart := Misses(scan, look, base) || FailsServer(scan, look, serverAttach);
            && (p.result == RestartNeeded <==> restart)
            && (p.result == Armed <==> !restart && Arms(scan, look))
            && (p.result == Injecting <==> forall z: Pid :: ListsZygote(scan, z) ==> look(z).inFlight)
            && (p.result == AlreadyHooked <==> !restart && !Arms(scan, look) && Vouches(scan, look, base))
            && p.zygote == if Misses(scan, look, base) then NeedsRestart
                           else if Arms(scan, look) || Vouches(scan, look, base) then Injected
                           else NotInjected
  {
    var zygotes := ZygotePids(scan);
    SameConfirmations(zygotes, look, base * Live(scan), base);
    PassWords(scan, look, base);
    AlreadyHookedMeans(zygotes, look, base, false);
    assert ListsServer(scan, ServerPid(scan)) <==> ServerPid(scan) >= 0 by { ServerPidIs(scan, ServerPid(scan)); }
    forall v: Pid ensures ListsServer(scan, v) <==> v == ServerPid(scan) {
      ServerPidIs(scan, v);
    }
    forall z: Pid ensures z in zygotes <==> ListsZygote(scan, z) {
      ZygotePidsAre(scan, z);
    }
    if AllInFlight(zygotes, look) {
      assert !AnyStuck(zygotes, look, base) && !AnyAttached(zygotes, look, base);
    }
  }

  /** The confirmations a pass leaves: those from before whose process is still a zygote or the
      system_server, the zygotes that took hooks, and the system_server if it did. */
  lemma RearmPassConfirms(scan: seq<Process>, look: Pid -> Look, base: set<Pid>, serverAttach: AttachOutcome, x: Pid)
    ensures x in RearmPass(scan, look, base, serverAttach).hooked <==>
            || (x in base && (ListsZygote(scan, x) || ListsServer(scan, x)))
            || (ListsZygote(scan, x) && TakesHooks(look(x)))
            || (ListsServer(scan, x) && Arms(scan, look) && serverAttach == TraceHooked)
  {
    PassWords(scan, look, base);
    SameConfirmations(ZygotePids(scan), look, base * Live(scan), base);
    ZygotePidsAre(scan, x);
    ServerPidIs(scan, x);
    assert Attached(look, base * Live(scan), x) <==> TakesHooks(look(x));
  }

  lemma PassOverMapped(scan: seq<Process>, look: Pid -> Look, base: set<Pid>, serverAttach: AttachOutcome)
    requires exists z: Pid :: ListsZygote(scan, z)
    requires forall z: Pid :: ListsZygote(scan, z) ==> look(z).mapped && !look(z).inFlight
    ensures RearmPass(scan, look, base, serverAttach).result == AlreadyHooked <==> forall z: Pid :: ListsZygote(scan, z) ==> z in base
  {
    RearmPassMeans(scan, look, base, serverAttach);
    assert !Arms(scan, look);
    if forall z: Pid :: ListsZygote(scan, z) ==> z in base {
      var z: Pid :| ListsZygote(scan, z);
      assert HasHooks(look(z), z in base);
      assert !Misses(scan, look, base);
    } else {
      var z: Pid :| ListsZygote(scan, z) && z !in base;
      assert LacksHooks(look(z), z in base);
    }
  }

  /** Two passes over the same listing, the first without a failure, with every zygote mapped and
      none in flight by the second: the second vouches for all of them exactly if those in flight at
      the first had been confirmed before. */
  lemma SecondPass(scan: seq<Process>, look: Pid -> Look, base: set<Pid>, serverAttach: AttachOutcome,
                   again: Pid -> Look, serverAgain: AttachOutcome)
    requires Distinct(scan) && RearmPass(scan, look, base, serverAttach).result != RestartNeeded
    requires exists z: Pid :: ListsZygote(scan, z)
    requires forall z: Pid :: ListsZygote(scan, z) ==> again(z).mapped && !again(z).inFlight
    ensures RearmPass(scan, again, RearmPass(scan, look, base, serverAttach).hooked, serverAgain).result == AlreadyHooked
       <==> forall z: Pid :: ListsZygote(scan, z) && look(z).inFlight ==> z in base
  {
    var first := RearmPass(scan, look, base, serverAttach);
    RearmPassMeans(scan, look, base, serverAttach);
    PassOverMapped(scan, again, first.hooked, serverAgain);
    forall z: Pid | ListsZygote(scan, z)
      ensures z in first.hooked <==> (look(z).inFlight ==> z in base)
    {
      AfterPass(scan, look, base, serverAttach, z);
    }
  }

  lemma AfterPass(scan: seq<Process>, look: Pid -> Look, base: set<Pid>, serverAttach: AttachOutcome, z: Pid)
    requires Distinct(scan) && ListsZygote(scan, z) && !Misses(scan, look, base)
    ensures z in RearmPass(scan, look, base, serverAttach).hooked <==> (look(z).inFlight ==> z in base)
  {
    RearmPassConfirms(scan, look, base, serverAttach, z);
    assert !LacksHooks(look(z), z in base);
    assert !ListsServer(scan, z);
  }

  /** The length of the longest tail of `starts` whose neighbours are less than a window apart. */
  function Streak(starts: seq<int>): nat {
    if |starts| <= 1 then |starts|
    else
      var last := |starts| - 1;
      if starts[last] - starts[last - 1] < CRASH_LOOP_WINDOW_SECONDS then Streak(starts[..last]) + 1 else 1
  }

  lemma {:induction false} StreakMeans(starts: seq<int>, n: nat)
    requires 1 <= n
    ensures Streak(starts) >= n <==>
            && n <= |starts|
            && forall k :: |starts| - n < k < |starts| ==> starts[k] - starts[k - 1] < CRASH_LOOP_WINDOW_SECONDS
  {
    if |starts| > 1 && n > 1 {
      var front := starts[..|starts| - 1];
      StreakMeans(front, n - 1);
      assert forall k :: 0 <= k < |front| ==> front[k] == starts[k];
    }
  }

  class ZygoteAbiManager {
    var supported: bool
    var zygote: ZygoteState
    var daemonRunning: bool
    var daemonPid: int
    var hooked: set<Pid>
    var count: nat
    var lastStart: int

    /** The pids reported as hooked since the current daemon was forked. */
    ghost var confirmed: set<Pid>
    /** The times of every zygote start counted so far. */
    ghost var starts: seq<int>

    ghost predicate Valid()
      reads this
    {
      && hooked <= confirmed
      && count == Streak(starts)
      && (starts != [] ==> lastStart == starts[|starts| - 1])
    }

    constructor ()
      ensures Valid() && hooked == {} && starts == [] && daemonPid == -1 && !supported && !daemonRunning
    {
      supported, zygote, daemonRunning, daemonPid := false, NotInjected, false, -1;
      hooked, confirmed, count, lastStart, starts := {}, {}, 0, 0, [];
    }

    /** A pid of 0 or less stands for a report that named no process. */
    method NotifyInjected(pid: int)
      requires Valid()
      modifies this`hooked, this`zygote, this`confirmed
      ensures Valid() && zygote == Injected
      ensures hooked == old(hooked) + if pid > 0 then {pid} else {}
      ensures confirmed == old(confirmed) + if pid > 0 then {pid} else {}
    {
      if pid > 0 {
        hooked := hooked + {pid};
        confirmed := confirmed + {pid};
      }
      zygote := Injected;
    }

    method SetDaemonCrashed()
      requires Valid()
      modifies this`daemonRunning
      ensures Valid() && !daemonRunning
    {
      daemonRunning := false;
    }

    method HandleDaemonExitIfMatch(pid: Pid) returns (matched: bool)
      requires Valid()
      modifies this`daemonRunning, this`daemonPid
      ensures Valid()
      ensures matched == (supported && pid == old(daemonPid))
      ensures matched ==> !daemonRunning && daemonPid == -1
      ensures !matched ==> daemonRunning == old(daemonRunning) && daemonPid == old(daemonPid)
    {
      matched := supported && pid == daemonPid;
      if matched {
        daemonRunning := false;
        daemonPid := -1;
      }
    }

    /** The fifth start in a row, each less than a window after the one before, is a crash loop. */
    method IsInCrashLoop(now: int) returns (looping: bool)
      requires Valid()
      modifies this`count, this`lastStart, this`starts
      ensures Valid() && starts == old(starts) + [now]
      ensures looping <==>
              && |starts| >= CRASH_LOOP_RETRY_COUNT
              && forall k :: |starts| - CRASH_LOOP_RETRY_COUNT < k < |starts| ==>
                   starts[k] - starts[k - 1] < CRASH_LOOP_WINDOW_SECONDS
    {
      if now - lastStart < CRASH_LOOP_WINDOW_SECONDS {
        count := count + 1;
      } else {
        count := 1;
      }
      lastStart := now;
      starts := starts + [now];
      assert starts[..|starts| - 1] == old(starts);
      StreakMeans(starts, CRASH_LOOP_RETRY_COUNT);
      return count >= CRASH_LOOP_RETRY_COUNT;
    }

    /** `forked` is what fork() returns: -1, or the pid of the new daemon. */
    method EnsureDaemonCreated(forked: int) returns (running: bool, started: bool)
      requires Valid() && forked >= -1
      modifies this`supported, this`zygote, this`daemonRunning, this`daemonPid, this`hooked, this`confirmed
      ensures Valid()
      ensures started <==> old(daemonPid) == -1 && forked != -1
      ensures running <==> started || (old(daemonPid) != -1 && old(daemonRunning))
      ensures hooked == if old(daemonPid) == -1 then {} else old(hooked)
      ensures confirmed == if old(daemonPid) == -1 then {} else old(confirmed)
      ensures started ==> daemonPid == forked && daemonRunning && supported
      ensures !started ==> daemonPid == old(daemonPid) && daemonRunning == old(daemonRunning) && supported == old(supported)
      ensures zygote == if old(daemonPid) == -1 then NotInjected else old(zygote)
    {
      started := false;
      if daemonPid == -1 {
        hooked := {};
        confirmed := {};
        zygote := NotInjected;
        if forked < 0 {
          return false, false;
        }
        supported := true;
        daemonPid := forked;
        daemonRunning := true;
        started := true;
      }
      return daemonRunning, started;
    }

    method CheckAndPrepareInjection(now: int, forked: int) returns (prepared: bool)
      requires Valid() && forked >= -1
      modifies this
      ensures Valid() && starts == old(starts) + [now]
      ensures prepared ==> daemonRunning && daemonPid != -1
      ensures prepared <==>
              && Streak(starts) < CRASH_LOOP_RETRY_COUNT
              && (if old(daemonPid) == -1 then forked != -1 else old(daemonRunning))
      ensures Streak(starts) >= CRASH_LOOP_RETRY_COUNT ==>
                hooked == old(hooked) && zygote == old(zygote) && daemonPid == old(daemonPid) && daemonRunning == old(daemonRunning)
      ensures prepared && old(daemonPid) == -1 ==> hooked == {} && zygote == NotInjected && daemonPid == forked
      ensures prepared && old(daemonPid) != -1 ==> hooked == old(hooked) && zygote == old(zygote) && daemonPid == old(daemonPid)
    {
      var looping := IsInCrashLoop(now);
      StreakMeans(starts, CRASH_LOOP_RETRY_COUNT);
      if looping {
        return false;
      }
      var started;
      prepared, started := EnsureDaemonCreated(forked);
    }

    method AttachRunning(pid: Pid, outcome: AttachOutcome) returns (attached: bool)
      requires Valid()
      modifies this`hooked, this`confirmed
      ensures Valid()
      ensures attached <==> outcome == TraceHooked
      ensures hooked == old(hooked) + if attached then {pid} else {}
      ensures confirmed == old(confirmed) + if attached then {pid} else {}
    {
      if outcome == NotForked || outcome == TimedOut || outcome == InjectorDied {
        return false;
      }
      match outcome
      case TraceHooked =>
        hooked := hooked + {pid};
        confirmed := confirmed + {pid};
        return true;
      case _ =>
        return false;
    }

    /** Attaches to every bare zygote of the listing, and to system_server if that armed one. */
    method Rearm(scan: seq<Process>, look: Pid -> Look, forked: int, serverAttach: AttachOutcome)
      returns (r: RearmResult)
      requires Valid() && forked >= -1 && Distinct(scan)
      modifies this
      ensures Valid()
      ensures count == old(count) && lastStart == old(lastStart) && starts == old(starts)
      ensures r == NoZygote <==> ZygotePids(scan) == {}
      ensures r == NoZygote ==> hooked == old(hooked) && confirmed == old(confirmed) && zygote == old(zygote)
                                && daemonPid == old(daemonPid) && daemonRunning == old(daemonRunning)
      ensures r == Failed <==>
              ZygotePids(scan) != {} && !(if old(daemonPid) == -1 then forked != -1 else old(daemonRunning))
      ensures r == Failed ==> supported && daemonPid == old(daemonPid) && daemonRunning == old(daemonRunning)
      ensures r == Failed ==> if old(daemonPid) == -1 then hooked == {} && zygote == NotInjected
                              else hooked == old(hooked) && zygote == old(zygote)
      ensures r != NoZygote && r != Failed ==>
                supported && daemonRunning && daemonPid == if old(daemonPid) == -1 then forked else old(daemonPid)
      ensures r != NoZygote && r != Failed ==>
              Pass(r, hooked, zygote)
              == RearmPass(scan, look, if old(daemonPid) == -1 then {} else old(hooked), serverAttach)
    {
      var zygotePids, serverPid := Classify(scan);
      if zygotePids == [] {
        return NoZygote;
      }
      assert zygotePids[0] in ZygotePids(scan);
      supported := true;
      var running, started := EnsureDaemonCreated(forked);
      if !running {
        return Failed;
      }
      ghost var base := hooked;
      Prune(zygotePids, serverPid);
      assert ZygotePids(scan) == set z | z in zygotePids;
      assert hooked == base * Live(scan);
      r := AttachAll(zygotePids, serverPid, ZygotePids(scan), look, serverAttach);
    }

    /** The attaching half of a rearm: the zygotes first, then system_server if one was armed. */
    method AttachAll(zygotePids: seq<Pid>, serverPid: int, ghost zygotes: set<Pid>, look: Pid -> Look,
                     serverAttach: AttachOutcome)
      returns (r: RearmResult)
      requires Valid() && serverPid >= -1 && zygotes == set z | z in zygotePids
      requires forall m, n :: 0 <= m < n < |zygotePids| ==> zygotePids[m] != zygotePids[n]
      requires zygotes != {}
      modifies this`hooked, this`confirmed, this`zygote
      ensures Valid()
      ensures Pass(r, hooked, zygote) == AttachPass(zygotes, serverPid, look, old(hooked), serverAttach)
      ensures r != Failed && r != NoZygote
    {
      var armedAny, hookedAny, injectingAny, restart := AttachZygotes(zygotePids, look);
      zygote := if restart then NeedsRestart else if armedAny || hookedAny then Injected else NotInjected;
      var failed := AttachServer(serverPid, armedAny, serverAttach);
      PassFrom(zygotes, serverPid, look, old(hooked), serverAttach);
      if restart || failed { return RestartNeeded; }
      if armedAny { return Armed; }
      return if hookedAny || !injectingAny then AlreadyHooked else Injecting;
    }

    method AttachServer(serverPid: int, armed: bool, serverAttach: AttachOutcome) returns (failed: bool)
      requires Valid() && serverPid >= -1
      modifies this`hooked, this`confirmed
      ensures Valid() && failed == (serverPid >= 0 && armed && serverAttach != TraceHooked)
      ensures hooked == old(hooked) + if serverPid >= 0 && armed && serverAttach == TraceHooked then {serverPid} else {}
    {
      failed := false;
      if serverPid != -1 && armed {
        var attached := AttachRunning(serverPid, serverAttach);
        failed := !attached;
      }
    }

    /** The loop of a rearm, over zygotes that are all different. */
    method AttachZygotes(zygotePids: seq<Pid>, look: Pid -> Look)
      returns (armedAny: bool, hookedAny: bool, injectingAny: bool, restart: bool)
      requires Valid()
      requires forall m, n :: 0 <= m < n < |zygotePids| ==> zygotePids[m] != zygotePids[n]
      modifies this`hooked, this`confirmed
      ensures Valid()
      ensures var zygotes := set z | z in zygotePids;
              && hooked == old(hooked) + Newly(zygotes, look, old(hooked))
              && armedAny == AnyAttached(zygotes, look, old(hooked))
              && restart == AnyStuck(zygotes, look, old(hooked))
              && hookedAny == AnyConfirmed(zygotes, look, old(hooked))
              && injectingAny == AnyInFlight(zygotes, look)
    {
      armedAny, hookedAny, injectingAny, restart := false, false, false, false;
      ghost var was, seen := hooked, {};
      for n := 0 to |zygotePids|
        invariant Valid() && seen == set z | z in zygotePids[..n]
        invariant hooked == was + Newly(seen, look, was)
        invariant armedAny == AnyAttached(seen, look, was) && restart == AnyStuck(seen, look, was)
        invariant hookedAny == AnyConfirmed(seen, look, was) && injectingAny == AnyInFlight(seen, look)
      {
        var pid := zygotePids[n];
        OneMoreZygote(seen, pid, look, was);
        assert pid in hooked <==> pid in was;
        var armed, already, injecting, stuck := AttachZygote(pid, look);
        armedAny, hookedAny := armedAny || armed, hookedAny || already;
        injectingAny, restart := injectingAny || injecting, restart || stuck;
        assert zygotePids[..n + 1] == zygotePids[..n] + [pid];
        seen := seen + {pid};
      }
      assert zygotePids[..|zygotePids|] == zygotePids;
    }

    method AttachZygote(pid: Pid, look: Pid -> Look) returns (armed: bool, already: bool, injecting: bool, stuck: bool)
      requires Valid()
      modifies this`hooked, this`confirmed
      ensures Valid() && hooked == old(hooked) + if armed then {pid} else {}
      ensures armed == Attached(look, old(hooked), pid) && stuck == Stuck(look, old(hooked), pid)
      ensures already == Confirmed(look, old(hooked), pid) && injecting == look(pid).inFlight
    {
      armed, already, injecting, stuck := false, false, false, false;
      if look(pid).inFlight {
        injecting := true;
      } else if !look(pid).mapped {
        armed := AttachRunning(pid, look(pid).attach);
        stuck := !armed;
      } else if pid in hooked {
        already := true;
      } else {
        stuck := true;
      }
    }

    method Classify(scan: seq<Process>) returns (zygotePids: seq<Pid>, serverPid: int)
      requires Distinct(scan)
      ensures forall z :: z in zygotePids <==> z in ZygotePids(scan)
      ensures forall m, n :: 0 <= m < n < |zygotePids| ==> zygotePids[m] != zygotePids[n]
      ensures serverPid == ServerPid(scan)
    {
      zygotePids, serverPid := [], -1;
      for n := 0 to |scan|
        invariant forall z :: z in zygotePids <==> z in ZygotePids(scan[..n])
        invariant forall a, b :: 0 <= a < b < |zygotePids| ==> zygotePids[a] != zygotePids[b]
        invariant serverPid == ServerPid(scan[..n])
      {
        assert scan[..n + 1][..n] == scan[..n];
        assert ZygotePids(scan[..n + 1]) == ZygotePids(scan[..n]) + if IsZygote(scan[n]) then {scan[n].pid} else {};
        if scan[n].ppid == 1 {
          if scan[n].zygoteArgv {
            zygotePids := zygotePids + [scan[n].pid];
          }
        } else if scan[n].comm == "system_server" {
          serverPid := scan[n].pid;
        }
      }
      assert scan[..|scan|] == scan;
    }

    /** Drops the confirmations of every pid that is none of those given. */
    method Prune(zygotePids: seq<Pid>, serverPid: int)
      requires Valid()
      modifies this`hooked
      ensures Valid()
      ensures forall p :: p in hooked <==> p in old(hooked) && (p in zygotePids || p == serverPid)
    {
      var todo := hooked;
      while todo != {}
        invariant todo <= hooked <= old(hooked)
        invariant forall p :: p in old(hooked) && (p in zygotePids || p == serverPid) ==> p in hooked
        invariant forall p :: p in hooked && p !in todo ==> p in zygotePids || p == serverPid
        decreases todo
      {
        var p :| p in todo;
        todo := todo - {p};
        if p != serverPid && p !in zygotePids {
          hooked := hooked - {p};
        }
      }
    }
  }
}
