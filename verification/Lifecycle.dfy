/**
 The life of zygotes and system_servers under injectors and rearms. An injection is spread over
 its own steps, so every interleaving of the boot path, the rearm loop, an injector left to run
 and the death of any process is a run. There is one zygote of the ABI alive at a time.
 */
module Lifecycle {
  import opened ZygoteAbi

  type Id = nat

  /** Who traces a process. */
  datatype Holder = NoOne | TheMonitor | HeldBy(injector: Id)

  /** `parked`: in SIGSTOP after the monitor's hand-off. `maps` counts the mappings it ever got, and
      `last` is the injector started for it last, -1 for none. */
  datatype Zygote = Zygote(alive: bool, parked: bool, holder: Holder, mapped: bool, maps: nat, hooked: bool, last: int)

  /** `specialized`: it ran the module lifecycle when its hooked zygote forked it. `late`: how often
      an injector drove the lifecycle in it. `last`: the injector started for it last, or -1. */
  datatype Server = Server(alive: bool, parent: Id, specialized: bool, late: nat, last: int)

  datatype Target = ZygoteTarget(z: Id) | ServerTarget(s: Id)

  datatype Phase =
    | Coming              // forked, not attached yet
    | Holding             // attached
    | HasMapped           // the library is in
    | HasHooked           // the daemon answered, the hooks are in
    | Finished(ok: bool)

  /** `spawn`: started by the boot path, for a zygote parked at its entry point. */
  datatype Injector = Injector(target: Target, spawn: bool, phase: Phase)

  datatype Pc =
    | Head
    | Untraced(z: Id)     // it is not in flight
    | Bare(z: Id)         // nor is the library mapped
    | Waiting(i: Id)
    | WaitingServer(i: Id)

  datatype Rearm = Idle | Active(todo: seq<Id>, server: int, armed: bool, pc: Pc)

  /** `current` is the zygote started last, -1 before the first. */
  datatype State = State(zygotes: map<Id, Zygote>, current: int, servers: map<Id, Server>, injectors: map<Id, Injector>,
                         rearm: Rearm, daemon: bool, confirmed: set<Id>)

  datatype Event =
    | ZygoteStarts(z: Id, caught: bool)    // caught: held by the monitor at its exec
    | ZygoteDies(z: Id)
    | ServerForks(s: Id, z: Id)
    | ServerDies(s: Id)
    | HandOff(z: Id, i: Id)                // the boot path: park it and start an injector
    | LetGo(z: Id)                         // the boot path: crash loop, no daemon, not tracing
    | Seize(i: Id)
    | NeverArrives(i: Id)                  // exec failed, or the seize was refused
    | MapLibrary(i: Id)
    | InstallHooks(i: Id)                  // the heartbeat was answered
    | Detach(i: Id)
    | DaemonDies
    | DaemonStarts
    | RearmBegins(todo: seq<Id>, server: int)
    | RearmLooks                           // injection_in_flight
    | RearmChecksMap                       // has_library_mapped
    | RearmForks(i: Id)
    | RearmReads                           // the injector's exit status
    | RearmTimesOut                        // the bounded wait runs out
    | RearmForksForServer(i: Id)
    | RearmEnds
    | ZygoteForkFails(z: Id)               // taken for a child, the zygote unloads the library

  predicate AliveZygote(s: State, z: int) {
    z >= 0 && z in s.zygotes && s.zygotes[z].alive
  }

  predicate InFlight(s: State, z: Id) {
    z in s.zygotes && s.zygotes[z].alive && (s.zygotes[z].holder != NoOne || s.zygotes[z].parked)
  }

  predicate Mapped(s: State, z: Id) {
    z in s.zygotes && s.zygotes[z].alive && s.zygotes[z].mapped
  }

  predicate TargetAlive(s: State, t: Target) {
    match t
    case ZygoteTarget(z) => z in s.zygotes && s.zygotes[z].alive
    case ServerTarget(v) => v in s.servers && s.servers[v].alive
  }

  predicate Enabled(s: State, e: Event) {
    match e
    case ZygoteStarts(z, _) => z !in s.zygotes && !AliveZygote(s, s.current)
    case ZygoteDies(z) => z in s.zygotes && s.zygotes[z].alive
    case ServerForks(v, z) => v !in s.servers && z in s.zygotes && s.zygotes[z].alive && !InFlight(s, z)
    case ServerDies(v) => v in s.servers
    case HandOff(z, i) =>
      z in s.zygotes && s.zygotes[z].alive && s.zygotes[z].holder == TheMonitor && i !in s.injectors && s.rearm.Idle?
    case LetGo(z) => z in s.zygotes && s.zygotes[z].alive && s.zygotes[z].holder == TheMonitor && s.rearm.Idle?
    case Seize(i) =>
      && i in s.injectors && s.injectors[i].phase == Coming && TargetAlive(s, s.injectors[i].target)
      && (s.injectors[i].target.ZygoteTarget? ==> s.zygotes[s.injectors[i].target.z].holder == NoOne)
    case NeverArrives(i) => i in s.injectors && s.injectors[i].phase == Coming
    case MapLibrary(i) => i in s.injectors && s.injectors[i].phase == Holding && TargetAlive(s, s.injectors[i].target)
    case InstallHooks(i) =>
      i in s.injectors && s.injectors[i].phase == HasMapped && TargetAlive(s, s.injectors[i].target) && s.daemon
    case Detach(i) => i in s.injectors && s.injectors[i].phase in {Holding, HasMapped, HasHooked}
    case RearmBegins(todo, server) =>
      && s.rearm.Idle? && (forall z :: z in todo ==> z in s.zygotes)
      && (server >= 0 ==> server in s.servers && s.servers[server].alive)
    case RearmLooks => s.rearm.Active? && s.rearm.pc == Head && s.rearm.todo != []
    case RearmChecksMap => s.rearm.Active? && s.rearm.pc.Untraced?
    case RearmForks(i) => s.rearm.Active? && s.rearm.pc.Bare? && i !in s.injectors
    case RearmReads =>
      s.rearm.Active? && s.rearm.pc.Waiting? && s.rearm.pc.i in s.injectors && s.injectors[s.rearm.pc.i].phase.Finished?
    case RearmTimesOut => s.rearm.Active? && s.rearm.pc.Waiting?
    case RearmForksForServer(i) =>
      && s.rearm.Active? && s.rearm.pc == Head && s.rearm.todo == [] && s.rearm.armed && s.rearm.server >= 0
      && i !in s.injectors
    case RearmEnds =>
      && s.rearm.Active?
      && (s.rearm.pc.WaitingServer? || (s.rearm.pc == Head && s.rearm.todo == [] && (!s.rearm.armed || s.rearm.server < 0)))
    case ZygoteForkFails(z) => z in s.zygotes && s.zygotes[z].alive && s.zygotes[z].hooked && !InFlight(s, z)
    case _ => true
  }

  function SetZygote(s: State, z: Id, y: Zygote): State {
    s.(zygotes := s.zygotes[z := y])
  }

  function SetPhase(s: State, i: Id, p: Phase): State
    requires i in s.injectors
  {
    s.(injectors := s.injectors[i := s.injectors[i].(phase := p)])
  }

  /** The holder of a zygote once injector `i` is done with it. */
  function Released(s: State, i: Id): State
    requires i in s.injectors
  {
    var t := s.injectors[i].target;
    if t.ZygoteTarget? && t.z in s.zygotes then
      var y := s.zygotes[t.z];
      if y.holder == HeldBy(i) then SetZygote(s, t.z, y.(holder := NoOne)) else s
    else s
  }

  function Apply(s: State, e: Event): State
    requires Enabled(s, e)
  {
    match e
    case ZygoteStarts(z, caught) =>
      SetZygote(s, z, Zygote(true, false, if caught then TheMonitor else NoOne, false, 0, false, -1)).(current := z)
    case ZygoteDies(z) =>
      SetZygote(s, z, s.zygotes[z].(alive := false))
      .(servers := map v | v in s.servers :: if s.servers[v].parent == z then s.servers[v].(alive := false) else s.servers[v])
    case ServerForks(v, z) => s.(servers := s.servers[v := Server(true, z, s.zygotes[z].hooked, 0, -1)])
    case ServerDies(v) => s.(servers := s.servers[v := s.servers[v].(alive := false)])
    case HandOff(z, i) =>
      SetZygote(s, z, s.zygotes[z].(holder := NoOne, parked := true, last := i))
      .(injectors := s.injectors[i := Injector(ZygoteTarget(z), true, Coming)])
    case LetGo(z) => SetZygote(s, z, s.zygotes[z].(holder := NoOne))
    case Seize(i) =>
      var s' := SetPhase(s, i, Holding);
      (match s.injectors[i].target
       case ZygoteTarget(z) => SetZygote(s', z, s.zygotes[z].(holder := HeldBy(i), parked := false))
       case ServerTarget(_) => s')
    case NeverArrives(i) =>
      var s' := SetPhase(s, i, Finished(false));
      var t := s.injectors[i].target;
      // Whoever gives up wakes a target that was parked for it.
      if s.injectors[i].spawn && t.ZygoteTarget? && t.z in s.zygotes then
        SetZygote(s', t.z, s.zygotes[t.z].(parked := false))
      else s'
    case MapLibrary(i) =>
      var s' := SetPhase(s, i, HasMapped);
      (match s.injectors[i].target
       case ZygoteTarget(z) => SetZygote(s', z, s.zygotes[z].(mapped := true, maps := s.zygotes[z].maps + 1))
       case ServerTarget(_) => s')
    case InstallHooks(i) =>
      var s' := SetPhase(s, i, HasHooked);
      (match s.injectors[i].target
       case ZygoteTarget(z) => SetZygote(s', z, s.zygotes[z].(hooked := true)).(confirmed := s.confirmed + {z})
       case ServerTarget(v) => s'.(servers := s.servers[v := s.servers[v].(late := s.servers[v].late + 1)]))
    case Detach(i) => Released(SetPhase(s, i, Finished(s.injectors[i].phase == HasHooked)), i)
    case DaemonDies => s.(daemon := false)
    case DaemonStarts => s.(daemon := true, confirmed := {})
    case RearmBegins(todo, server) => s.(rearm := Active(todo, server, false, Head))
    case RearmLooks =>
      var z := s.rearm.todo[0];
      var next := s.rearm.(todo := s.rearm.todo[1..]);
      s.(rearm := if ActionFor(InFlight(s, z), true, true).LeaveToInjector? then next else next.(pc := Untraced(z)))
    case RearmChecksMap =>
      var z := s.rearm.pc.z;
      s.(rearm := s.rearm.(pc := if ActionFor(false, Mapped(s, z), z in s.confirmed).Attach? then Bare(z) else Head))
    case RearmForks(i) =>
      var z := s.rearm.pc.z;
      s.(injectors := s.injectors[i := Injector(ZygoteTarget(z), false, Coming)],
         zygotes := if z in s.zygotes then s.zygotes[z := s.zygotes[z].(last := i)] else s.zygotes,
         rearm := s.rearm.(pc := Waiting(i)))
    case RearmReads =>
      s.(rearm := s.rearm.(armed := s.rearm.armed || s.injectors[s.rearm.pc.i].phase.ok, pc := Head))
    case RearmTimesOut => s.(rearm := s.rearm.(pc := Head))
    case RearmForksForServer(i) =>
      var v := s.rearm.server;
      s.(injectors := s.injectors[i := Injector(ServerTarget(v), false, Coming)],
         servers := if v in s.servers then s.servers[v := s.servers[v].(last := i)] else s.servers,
         rearm := s.rearm.(pc := WaitingServer(i)))
    case RearmEnds => s.(rearm := Idle)
    case ZygoteForkFails(z) => SetZygote(s, z, s.zygotes[z].(mapped := false, hooked := false))
  }

  /** What the promise rests on: a late injector has attached by the time the wait for it runs
      out, so that it shows as the tracer of its target from then on; and no fork of a hooked
      zygote fails, since the zygote would unload the library as if it were the child. */
  predicate Provided(s: State, e: Event)
    requires Enabled(s, e)
  {
    && (e.RearmTimesOut? ==> s.rearm.pc.i in s.injectors && s.injectors[s.rearm.pc.i].phase != Coming)
    && !e.ZygoteForkFails?
  }

  predicate Initial(s: State) {
    s.zygotes == map[] && s.current == -1 && s.servers == map[] && s.injectors == map[] && s.rearm == Idle && s.confirmed == {}
  }

  ghost predicate Run(states: seq<State>, events: seq<Event>) {
    && |states| == |events| + 1 && Initial(states[0])
    && forall n :: 0 <= n < |events| ==>
         && Enabled(states[n], events[n]) && Provided(states[n], events[n])
         && states[n + 1] == Apply(states[n], events[n])
  }

  // ---------- the invariant ----------

  /** The injector may still map the library into a zygote. */
  predicate Pending(x: Injector) {
    x.target.ZygoteTarget? && (x.phase.Coming? || x.phase.Holding?)
  }

  /** An injector's view: the library goes into a zygote once. One that may still map is the last
      injector its zygote got, and shows: the zygote is parked for it, or traced by it, or the
      rearm that started it is waiting for it. A system_server has a single injector, never after
      it specialized, and a zygote that carries the library. */
  predicate InjectorInv(s: State, i: Id)
    requires i in s.injectors
  {
    var x := s.injectors[i];
    match x.target
    case ZygoteTarget(z) =>
      && z in s.zygotes
      && (Pending(x) && s.zygotes[z].alive ==>
            && s.zygotes[z].last == i && s.zygotes[z].maps == 0
            && if x.phase.Holding? then s.zygotes[z].holder == HeldBy(i)
               else if x.spawn then s.zygotes[z].parked
               else s.rearm.Active? && s.rearm.pc == Waiting(i))
      && (x.phase.HasMapped? || x.phase.HasHooked? || x.phase == Finished(true) ==> s.zygotes[z].maps == 1)
    case ServerTarget(v) =>
      && v in s.servers && s.servers[v].parent in s.zygotes
      && (s.servers[v].alive ==>
            && s.servers[v].last == i && !s.servers[v].specialized
            && s.zygotes[s.servers[v].parent].maps == 1
            && (x.phase.Coming? || x.phase.Holding? || x.phase.HasMapped? ==> s.servers[v].late == 0))
  }

  predicate ZygoteInv(s: State, z: Id)
    requires z in s.zygotes
  {
    var y := s.zygotes[z];
    && y.maps <= 1 && (y.mapped <==> y.maps == 1) && (y.hooked ==> y.mapped)
    && (y.alive ==> z == s.current)
    && (y.alive && y.holder == TheMonitor ==> y.maps == 0 && y.last == -1)
    && y.last >= -1 && (y.last >= 0 ==> y.last in s.injectors && s.injectors[y.last].target == ZygoteTarget(z))
  }

  predicate ServerInv(s: State, v: Id)
    requires v in s.servers
  {
    var x := s.servers[v];
    && x.parent in s.zygotes && (x.alive ==> s.zygotes[x.parent].alive)
    && x.late <= 1 && (x.specialized ==> x.late == 0)
    && (x.alive && !Untouched(x) ==> s.zygotes[x.parent].maps == 1)
  }

  /** Nothing has driven the lifecycle in it, and no injector was ever sent to it. */
  predicate Untouched(x: Server) {
    !x.specialized && x.late == 0 && x.last == -1
  }

  /** No injector can map the library into it any more, unless a new one is started. */
  predicate Quiet(s: State, y: Zygote) {
    y.last in s.injectors ==> !Pending(s.injectors[y.last])
  }

  /** What a rearm knows of the zygote it is looking at; and one that has armed a zygote, or still
      may, has a system_server nothing has touched. */
  predicate RearmInv(s: State) {
    s.rearm.Active? ==>
      && (s.rearm.pc.Untraced? || s.rearm.pc.Bare? ==>
            && s.rearm.pc.z in s.zygotes
            && (s.zygotes[s.rearm.pc.z].alive ==>
                  && s.zygotes[s.rearm.pc.z].holder != TheMonitor && Quiet(s, s.zygotes[s.rearm.pc.z])
                  && (s.rearm.pc.Bare? ==> s.zygotes[s.rearm.pc.z].maps == 0)))
      && (s.rearm.pc.Waiting? ==>
            && s.rearm.pc.i in s.injectors && s.injectors[s.rearm.pc.i].target.ZygoteTarget?
            && s.injectors[s.rearm.pc.i].target.z in s.zygotes)
      && (s.rearm.server >= 0 ==> s.rearm.server in s.servers && s.servers[s.rearm.server].parent in s.zygotes)
      && (s.rearm.server >= 0 && s.servers[s.rearm.server].alive ==>
            var v := s.servers[s.rearm.server];
            && (s.rearm.armed && !s.rearm.pc.WaitingServer? ==> Untouched(v) && s.zygotes[v.parent].maps == 1)
            && (s.rearm.pc.Waiting? ==>
                  var x := s.injectors[s.rearm.pc.i];
                  || (Untouched(v) && v.parent == x.target.z)
                  || (!s.zygotes[x.target.z].alive && (x.phase.Coming? || x.phase == Finished(false)))))
  }

  /** The parts of the invariant that look at the rearm only through the injector it waits for. */
  ghost predicate PartsInv(s: State) {
    && (forall i :: i in s.injectors ==> InjectorInv(s, i))
    && (forall z :: z in s.zygotes ==> ZygoteInv(s, z))
    && (forall v :: v in s.servers ==> ServerInv(s, v))
  }

  ghost predicate Inv(s: State) {
    && PartsInv(s)
    && (s.rearm.Active? ==> forall z :: z in s.rearm.todo ==> z in s.zygotes)
    && RearmInv(s)
  }

  lemma ZygoteStartsStep(s: State, z: Id, caught: bool)
    requires Inv(s) && Enabled(s, ZygoteStarts(z, caught))
    ensures Inv(Apply(s, ZygoteStarts(z, caught)))
  {
    var s' := Apply(s, ZygoteStarts(z, caught));
    forall j | j in s'.injectors
      ensures InjectorInv(s', j)
    {
      assert j in s.injectors ==> InjectorInv(s, j);
    }
    forall y | y in s'.zygotes
      ensures ZygoteInv(s', y)
    {
      assert y in s.zygotes ==> ZygoteInv(s, y);
    }
    forall w | w in s'.servers
      ensures ServerInv(s', w)
    {
      assert w in s.servers ==> ServerInv(s, w);
    }
  }

  lemma ZygoteDiesStep(s: State, z: Id)
    requires Inv(s) && Enabled(s, ZygoteDies(z))
    ensures Inv(Apply(s, ZygoteDies(z)))
  {
    var s' := Apply(s, ZygoteDies(z));
    forall j | j in s'.injectors
      ensures InjectorInv(s', j)
    {
      assert j in s.injectors ==> InjectorInv(s, j);
    }
    forall y | y in s'.zygotes
      ensures ZygoteInv(s', y)
    {
      assert y in s.zygotes ==> ZygoteInv(s, y);
    }
    forall w | w in s'.servers
      ensures ServerInv(s', w)
    {
      assert w in s.servers ==> ServerInv(s, w);
    }
  }

  lemma ServerForksStep(s: State, v: Id, z: Id)
    requires Inv(s) && Enabled(s, ServerForks(v, z))
    ensures Inv(Apply(s, ServerForks(v, z)))
  {
  }

  lemma ServerDiesStep(s: State, v: Id)
    requires Inv(s) && Enabled(s, ServerDies(v))
    ensures Inv(Apply(s, ServerDies(v)))
  {
    var s' := Apply(s, ServerDies(v));
    forall j | j in s'.injectors
      ensures InjectorInv(s', j)
    {
      assert j in s.injectors ==> InjectorInv(s, j);
    }
    forall y | y in s'.zygotes
      ensures ZygoteInv(s', y)
    {
      assert y in s.zygotes ==> ZygoteInv(s, y);
    }
    forall w | w in s'.servers
      ensures ServerInv(s', w)
    {
      assert w in s.servers ==> ServerInv(s, w);
    }
  }

  lemma HandOffStep(s: State, z: Id, i: Id)
    requires Inv(s) && Enabled(s, HandOff(z, i))
    ensures Inv(Apply(s, HandOff(z, i)))
  {
    var s' := Apply(s, HandOff(z, i));
    forall j | j in s'.injectors
      ensures InjectorInv(s', j)
    {
      assert j in s.injectors ==> InjectorInv(s, j);
    }
    forall y | y in s'.zygotes
      ensures ZygoteInv(s', y)
    {
      assert y in s.zygotes ==> ZygoteInv(s, y);
    }
    forall w | w in s'.servers
      ensures ServerInv(s', w)
    {
      assert w in s.servers ==> ServerInv(s, w);
    }
  }

  lemma LetGoStep(s: State, z: Id)
    requires Inv(s) && Enabled(s, LetGo(z))
    ensures Inv(Apply(s, LetGo(z)))
  {
  }

  /** What an injector may do to its zygote: its next phase, and the zygote after it. */
  predicate Act(i: Id, x: Injector, y: Zygote, phase: Phase, y': Zygote) {
    || (x.phase.Coming? && phase.Holding? && y.alive && y.holder == NoOne && y' == y.(holder := HeldBy(i), parked := false))
    || (x.phase.Coming? && phase == Finished(false) && y' == if x.spawn then y.(parked := false) else y)
    || (x.phase.Holding? && phase.HasMapped? && y.alive && y' == y.(mapped := true, maps := y.maps + 1))
    || (x.phase.HasMapped? && phase.HasHooked? && y.alive && y' == y.(hooked := true))
    || ((x.phase.Holding? || x.phase.HasMapped? || x.phase.HasHooked?) && phase == Finished(x.phase.HasHooked?)
        && y' == if y.holder == HeldBy(i) then y.(holder := NoOne) else y)
  }

  predicate ActsOnZygote(s: State, i: Id, s': State) {
    && i in s.injectors && s.injectors[i].target.ZygoteTarget? && s.injectors[i].target.z in s.zygotes
    && var z := s.injectors[i].target.z;
       && i in s'.injectors && z in s'.zygotes
       && Act(i, s.injectors[i], s.zygotes[z], s'.injectors[i].phase, s'.zygotes[z])
       && s'.injectors == s.injectors[i := s.injectors[i].(phase := s'.injectors[i].phase)]
       && s'.zygotes == s.zygotes[z := s'.zygotes[z]]
       && s'.servers == s.servers && s'.current == s.current && s'.rearm == s.rearm
  }

  lemma ActInjectors(s: State, i: Id, s': State)
    requires Inv(s) && ActsOnZygote(s, i, s')
    ensures forall j :: j in s'.injectors ==> InjectorInv(s', j)
  {
    forall j | j in s'.injectors
      ensures InjectorInv(s', j)
    {
      assert InjectorInv(s, i) && InjectorInv(s, j);
      assert ZygoteInv(s, s.injectors[i].target.z);
    }
  }

  lemma ActProcesses(s: State, i: Id, s': State)
    requires Inv(s) && ActsOnZygote(s, i, s')
    ensures forall z :: z in s'.zygotes ==> ZygoteInv(s', z)
    ensures forall v :: v in s'.servers ==> ServerInv(s', v)
  {
    assert InjectorInv(s, i) && ZygoteInv(s, s.injectors[i].target.z);
    forall z | z in s'.zygotes
      ensures ZygoteInv(s', z)
    {
      assert ZygoteInv(s, z);
    }
    forall v | v in s'.servers
      ensures ServerInv(s', v)
    {
      assert ServerInv(s, v);
    }
  }

  lemma ActRearm(s: State, i: Id, s': State)
    requires Inv(s) && ActsOnZygote(s, i, s')
    ensures RearmInv(s')
  {
    assert InjectorInv(s, i) && ZygoteInv(s, s.injectors[i].target.z);
    if s.rearm.Active? && s.rearm.pc.Waiting? {
      assert InjectorInv(s, s.rearm.pc.i);
    }
    if s.rearm.Active? && s.rearm.server >= 0 {
      assert ServerInv(s, s.rearm.server);
    }
  }

  lemma ActInv(s: State, i: Id, s': State)
    requires Inv(s) && ActsOnZygote(s, i, s')
    ensures Inv(s')
  {
    ActInjectors(s, i, s');
    ActProcesses(s, i, s');
    ActRearm(s, i, s');
  }

  predicate ActsOnServer(s: State, i: Id, s': State) {
    && i in s.injectors && s.injectors[i].target.ServerTarget? && s.injectors[i].target.s in s.servers
    && var v := s.injectors[i].target.s;
       && i in s'.injectors && v in s'.servers
       && s'.injectors == s.injectors[i := s.injectors[i].(phase := s'.injectors[i].phase)]
       && s'.servers == s.servers[v := s'.servers[v]]
       && s'.zygotes == s.zygotes && s'.current == s.current && s'.rearm == s.rearm
       && (s'.servers[v] == s.servers[v]
           || (s.servers[v].alive && s.injectors[i].phase.HasMapped? && s'.injectors[i].phase.HasHooked?
               && s'.servers[v] == s.servers[v].(late := s.servers[v].late + 1)))
       && (s.injectors[i].phase.HasHooked? || s.injectors[i].phase.Finished? ==>
             s'.injectors[i].phase.HasHooked? || s'.injectors[i].phase.Finished?)
  }

  lemma ActOnServerRearm(s: State, i: Id, s': State)
    requires Inv(s) && ActsOnServer(s, i, s')
    ensures RearmInv(s')
  {
    assert InjectorInv(s, i) && ServerInv(s, s.injectors[i].target.s);
  }

  lemma ActOnServerParts(s: State, i: Id, s': State)
    requires Inv(s) && ActsOnServer(s, i, s')
    ensures PartsInv(s')
  {
    assert InjectorInv(s, i) && ServerInv(s, s.injectors[i].target.s);
    forall j | j in s'.injectors
      ensures InjectorInv(s', j)
    {
      assert InjectorInv(s, j);
    }
    forall z | z in s'.zygotes
      ensures ZygoteInv(s', z)
    {
      assert ZygoteInv(s, z);
    }
    forall w | w in s'.servers
      ensures ServerInv(s', w)
    {
      assert ServerInv(s, w);
    }
  }

  lemma ActOnServerInv(s: State, i: Id, s': State)
    requires Inv(s) && ActsOnServer(s, i, s')
    ensures Inv(s')
  {
    ActOnServerParts(s, i, s');
    ActOnServerRearm(s, i, s');
  }

  predicate StepOf(e: Event, i: Id) {
    e == Seize(i) || e == NeverArrives(i) || e == MapLibrary(i) || e == InstallHooks(i) || e == Detach(i)
  }

  /** Whatever an injector does next, it is one of the acts above. */
  lemma InjectorActsOnZygote(s: State, i: Id, e: Event, z: Id)
    requires Enabled(s, e) && StepOf(e, i)
    requires i in s.injectors && s.injectors[i].target == ZygoteTarget(z) && z in s.zygotes
    ensures ActsOnZygote(s, i, Apply(s, e))
  {
    var s' := Apply(s, e);
    assert s'.zygotes == s.zygotes[z := s'.zygotes[z]];
  }

  lemma InjectorActsOnServer(s: State, i: Id, e: Event, v: Id)
    requires Enabled(s, e) && StepOf(e, i)
    requires i in s.injectors && s.injectors[i].target == ServerTarget(v) && v in s.servers
    ensures ActsOnServer(s, i, Apply(s, e))
  {
    var s' := Apply(s, e);
    assert s'.servers == s.servers[v := s'.servers[v]];
  }

  lemma InjectorStep(s: State, i: Id, e: Event)
    requires Inv(s) && Enabled(s, e) && StepOf(e, i)
    ensures Inv(Apply(s, e))
  {
    assert InjectorInv(s, i);
    match s.injectors[i].target
    case ZygoteTarget(z) =>
      InjectorActsOnZygote(s, i, e, z);
      ActInv(s, i, Apply(s, e));
    case ServerTarget(v) =>
      InjectorActsOnServer(s, i, e, v);
      ActOnServerInv(s, i, Apply(s, e));
  }

  lemma RearmMoves(s: State, r: Rearm)
    requires Inv(s)
    requires s.rearm.Active? && s.rearm.pc.Waiting? ==> !s.injectors[s.rearm.pc.i].phase.Coming?
    ensures PartsInv(s.(rearm := r))
  {
    var s' := s.(rearm := r);
    forall i | i in s'.injectors
      ensures InjectorInv(s', i)
    {
      assert InjectorInv(s, i);
    }
    forall z | z in s'.zygotes
      ensures ZygoteInv(s', z)
    {
      assert ZygoteInv(s, z);
    }
    forall v | v in s'.servers
      ensures ServerInv(s', v)
    {
      assert ServerInv(s, v);
    }
  }

  lemma RearmBeginsStep(s: State, todo: seq<Id>, server: int)
    requires Inv(s) && Enabled(s, RearmBegins(todo, server)) && Provided(s, RearmBegins(todo, server))
    ensures Inv(Apply(s, RearmBegins(todo, server)))
  {
  }

  lemma LooksRearm(s: State)
    requires Inv(s) && Enabled(s, RearmLooks)
    ensures RearmInv(Apply(s, RearmLooks))
  {
    var z := s.rearm.todo[0];
    assert ZygoteInv(s, z);
    if s.zygotes[z].last in s.injectors {
      assert InjectorInv(s, s.zygotes[z].last);
    }
  }

  lemma RearmLooksStep(s: State)
    requires Inv(s) && Enabled(s, RearmLooks) && Provided(s, RearmLooks)
    ensures Inv(Apply(s, RearmLooks))
  {
    RearmMoves(s, Apply(s, RearmLooks).rearm);
    LooksRearm(s);
  }

  lemma RearmChecksMapStep(s: State)
    requires Inv(s) && Enabled(s, RearmChecksMap) && Provided(s, RearmChecksMap)
    ensures Inv(Apply(s, RearmChecksMap))
  {
    RearmMoves(s, Apply(s, RearmChecksMap).rearm);
    assert ZygoteInv(s, s.rearm.pc.z);
  }

  lemma ForksInjectors(s: State, i: Id)
    requires Inv(s) && Enabled(s, RearmForks(i))
    ensures var s' := Apply(s, RearmForks(i)); forall j :: j in s'.injectors ==> InjectorInv(s', j)
  {
    var s' := Apply(s, RearmForks(i));
    forall j | j in s'.injectors
      ensures InjectorInv(s', j)
    {
      assert j in s.injectors ==> InjectorInv(s, j);
    }
  }

  lemma RearmForksStep(s: State, i: Id)
    requires Inv(s) && Enabled(s, RearmForks(i)) && Provided(s, RearmForks(i))
    ensures Inv(Apply(s, RearmForks(i)))
  {
    var s' := Apply(s, RearmForks(i));
    ForksInjectors(s, i);
    forall y | y in s'.zygotes
      ensures ZygoteInv(s', y)
    {
      assert y in s.zygotes ==> ZygoteInv(s, y);
    }
    forall w | w in s'.servers
      ensures ServerInv(s', w)
    {
      assert w in s.servers ==> ServerInv(s, w);
    }
  }

  lemma RearmReadsStep(s: State)
    requires Inv(s) && Enabled(s, RearmReads) && Provided(s, RearmReads)
    ensures Inv(Apply(s, RearmReads))
  {
    RearmMoves(s, Apply(s, RearmReads).rearm);
    assert InjectorInv(s, s.rearm.pc.i);
  }

  lemma RearmTimesOutStep(s: State)
    requires Inv(s) && Enabled(s, RearmTimesOut) && Provided(s, RearmTimesOut)
    ensures Inv(Apply(s, RearmTimesOut))
  {
  }

  lemma RearmForksForServerStep(s: State, i: Id)
    requires Inv(s) && Enabled(s, RearmForksForServer(i)) && Provided(s, RearmForksForServer(i))
    ensures Inv(Apply(s, RearmForksForServer(i)))
  {
    var s' := Apply(s, RearmForksForServer(i));
    forall j | j in s'.injectors
      ensures InjectorInv(s', j)
    {
      assert j in s.injectors ==> InjectorInv(s, j);
    }
    forall y | y in s'.zygotes
      ensures ZygoteInv(s', y)
    {
      assert y in s.zygotes ==> ZygoteInv(s, y);
    }
    forall w | w in s'.servers
      ensures ServerInv(s', w)
    {
      assert w in s.servers ==> ServerInv(s, w);
    }
  }

  lemma RearmEndsStep(s: State)
    requires Inv(s) && Enabled(s, RearmEnds) && Provided(s, RearmEnds)
    ensures Inv(Apply(s, RearmEnds))
  {
  }

  lemma WorldStep(s: State, e: Event)
    requires Inv(s) && Enabled(s, e)
    requires e.ZygoteStarts? || e.ZygoteDies? || e.ServerForks? || e.ServerDies? || e.HandOff? || e.LetGo?
    ensures Inv(Apply(s, e))
  {
    match e
    case ZygoteStarts(z, caught) => ZygoteStartsStep(s, z, caught);
    case ZygoteDies(z) => ZygoteDiesStep(s, z);
    case ServerForks(v, z) => ServerForksStep(s, v, z);
    case ServerDies(v) => ServerDiesStep(s, v);
    case HandOff(z, i) => HandOffStep(s, z, i);
    case LetGo(z) => LetGoStep(s, z);
  }

  lemma RearmEventStep(s: State, e: Event)
    requires Inv(s) && Enabled(s, e) && Provided(s, e)
    requires e.RearmBegins? || e.RearmLooks? || e.RearmChecksMap? || e.RearmForks? || e.RearmReads? || e.RearmTimesOut?
          || e.RearmForksForServer? || e.RearmEnds?
    ensures Inv(Apply(s, e))
  {
    match e
    case RearmBegins(todo, server) => RearmBeginsStep(s, todo, server);
    case RearmLooks => RearmLooksStep(s);
    case RearmChecksMap => RearmChecksMapStep(s);
    case RearmForks(i) => RearmForksStep(s, i);
    case RearmReads => RearmReadsStep(s);
    case RearmTimesOut => RearmTimesOutStep(s);
    case RearmForksForServer(i) => RearmForksForServerStep(s, i);
    case RearmEnds => RearmEndsStep(s);
  }

  /** The invariant is inductive over every event. */
  lemma InvStep(s: State, e: Event)
    requires Inv(s) && Enabled(s, e) && Provided(s, e)
    ensures Inv(Apply(s, e))
  {
    match e
    case Seize(i) => InjectorStep(s, i, e);
    case NeverArrives(i) => InjectorStep(s, i, e);
    case MapLibrary(i) => InjectorStep(s, i, e);
    case InstallHooks(i) => InjectorStep(s, i, e);
    case Detach(i) => InjectorStep(s, i, e);
    case DaemonDies => DaemonStep(s, e);
    case DaemonStarts => DaemonStep(s, e);
    case ZygoteStarts(_, _) => WorldStep(s, e);
    case ZygoteDies(_) => WorldStep(s, e);
    case ServerForks(_, _) => WorldStep(s, e);
    case ServerDies(_) => WorldStep(s, e);
    case HandOff(_, _) => WorldStep(s, e);
    case LetGo(_) => WorldStep(s, e);
    case _ => RearmEventStep(s, e);
  }

  lemma DaemonStep(s: State, e: Event)
    requires Inv(s) && (e.DaemonDies? || e.DaemonStarts?)
    ensures Inv(Apply(s, e))
  {
    var s' := Apply(s, e);
    assert forall i :: i in s.injectors ==> InjectorInv(s', i) == InjectorInv(s, i);
    assert forall z :: z in s.zygotes ==> ZygoteInv(s', z) == ZygoteInv(s, z);
    assert forall v :: v in s.servers ==> ServerInv(s', v) == ServerInv(s, v);
  }

  lemma {:induction false} RunInv(states: seq<State>, events: seq<Event>, n: nat)
    requires Run(states, events) && n < |states|
    ensures Inv(states[n])
  {
    if n > 0 {
      RunInv(states, events, n - 1);
      InvStep(states[n - 1], events[n - 1]);
    }
  }

  // ---------- what follows for whole runs ----------

  /** An injector on `t` maps the library. */
  predicate Maps(s: State, e: Event, t: Target) {
    e.MapLibrary? && e.i in s.injectors && s.injectors[e.i].target == t
  }

  /** The daemon answers an injector that is on `t`. */
  predicate Hooks(s: State, e: Event, t: Target) {
    e.InstallHooks? && e.i in s.injectors && s.injectors[e.i].target == t
  }

  /** How often `happens` was true of the first n events. */
  ghost function Times(states: seq<State>, events: seq<Event>, n: nat, happens: (State, Event) -> bool): nat
    requires n <= |events| && n <= |states|
  {
    if n == 0 then 0
    else Times(states, events, n - 1, happens) + if happens(states[n - 1], events[n - 1]) then 1 else 0
  }

  lemma StepOfRun(states: seq<State>, events: seq<Event>, n: nat)
    requires Run(states, events) && n < |events|
    ensures Enabled(states[n], events[n]) && Provided(states[n], events[n])
    ensures states[n + 1] == Apply(states[n], events[n])
  {
  }

  lemma MapsStep(s: State, e: Event, z: Id)
    requires Enabled(s, e)
    ensures var s' := Apply(s, e);
            && (z in s.zygotes || Maps(s, e, ZygoteTarget(z)) ==> z in s.zygotes && z in s'.zygotes)
            && (z in s'.zygotes ==>
                  s'.zygotes[z].maps == (if z in s.zygotes then s.zygotes[z].maps else 0)
                                        + if Maps(s, e, ZygoteTarget(z)) then 1 else 0)
  {
  }

  lemma LateStep(s: State, e: Event, v: Id)
    requires Enabled(s, e)
    ensures var s' := Apply(s, e);
            && (v in s.servers || Hooks(s, e, ServerTarget(v)) ==> v in s.servers && v in s'.servers)
            && (v in s'.servers ==>
                  s'.servers[v].late == (if v in s.servers then s.servers[v].late else 0)
                                        + if Hooks(s, e, ServerTarget(v)) then 1 else 0)
  {
  }

  /** The counts a zygote and a system_server carry are counts of events of the run. */
  lemma {:induction false} CountsMean(states: seq<State>, events: seq<Event>, n: nat, z: Id, v: Id)
    requires Run(states, events) && n < |states|
    ensures Times(states, events, n, (s, e) => Maps(s, e, ZygoteTarget(z)))
         == if z in states[n].zygotes then states[n].zygotes[z].maps else 0
    ensures Times(states, events, n, (s, e) => Hooks(s, e, ServerTarget(v)))
         == if v in states[n].servers then states[n].servers[v].late else 0
  {
    if n > 0 {
      StepOfRun(states, events, n - 1);
      CountsMean(states, events, n - 1, z, v);
      MapsStep(states[n - 1], events[n - 1], z);
      LateStep(states[n - 1], events[n - 1], v);
    }
  }

  /** In every run the library is mapped into a zygote at most once in its life. */
  lemma MappedAtMostOnce(states: seq<State>, events: seq<Event>, n: nat, z: Id)
    requires Run(states, events) && n < |states|
    ensures Times(states, events, n, (s, e) => Maps(s, e, ZygoteTarget(z))) <= 1
  {
    RunInv(states, events, n);
    CountsMean(states, events, n, z, 0);
    assert z in states[n].zygotes ==> ZygoteInv(states[n], z);
  }

  ghost predicate HooksBefore(states: seq<State>, events: seq<Event>, n: nat, z: Id)
    requires n <= |events| && n <= |states|
  {
    exists l :: 0 <= l < n && Hooks(states[l], events[l], ZygoteTarget(z))
  }

  lemma HookedStep(s: State, e: Event, z: Id)
    requires Enabled(s, e) && Provided(s, e)
    ensures var s' := Apply(s, e);
            && (z in s.zygotes || Hooks(s, e, ZygoteTarget(z)) ==> z in s'.zygotes)
            && (z in s'.zygotes ==> (s'.zygotes[z].hooked <==> (z in s.zygotes && s.zygotes[z].hooked) || Hooks(s, e, ZygoteTarget(z))))
  {
  }

  /** In every run a zygote is hooked exactly if hooks were installed in it. */
  lemma {:induction false} HookedMeans(states: seq<State>, events: seq<Event>, n: nat, z: Id)
    requires Run(states, events) && n < |states|
    ensures z in states[n].zygotes && states[n].zygotes[z].hooked <==> HooksBefore(states, events, n, z)
  {
    if n > 0 {
      var s, e := states[n - 1], events[n - 1];
      StepOfRun(states, events, n - 1);
      HookedMeans(states, events, n - 1, z);
      HookedStep(s, e, z);
      OneMore(states, events, n, z);
    }
  }

  lemma OneMore(states: seq<State>, events: seq<Event>, n: nat, z: Id)
    requires 0 < n <= |events| && n <= |states|
    ensures HooksBefore(states, events, n, z)
       <==> HooksBefore(states, events, n - 1, z) || Hooks(states[n - 1], events[n - 1], ZygoteTarget(z))
  {
  }

  /** A system_server keeps its parent and what it was forked with. */
  lemma ServerStep(s: State, e: Event, v: Id)
    requires Enabled(s, e) && v in Apply(s, e).servers
    ensures var x := Apply(s, e).servers[v];
            if v in s.servers then x.parent == s.servers[v].parent && x.specialized == s.servers[v].specialized
            else e == ServerForks(v, x.parent) && x.parent in s.zygotes && x.specialized == s.zygotes[x.parent].hooked
  {
  }

  /** In every run a system_server specialized exactly if hooks had been installed in its zygote when
      it was forked. */
  lemma {:induction false} SpecializedMeans(states: seq<State>, events: seq<Event>, n: nat, v: Id) returns (m: nat)
    requires Run(states, events) && n < |states| && v in states[n].servers
    ensures m < n && events[m] == ServerForks(v, states[n].servers[v].parent)
    ensures states[n].servers[v].specialized <==> HooksBefore(states, events, m, states[n].servers[v].parent)
  {
    assert n > 0;
    var s, e := states[n - 1], events[n - 1];
    StepOfRun(states, events, n - 1);
    ServerStep(s, e, v);
    if v in s.servers {
      m := SpecializedMeans(states, events, n - 1, v);
    } else {
      m := n - 1;
      HookedMeans(states, events, m, states[n].servers[v].parent);
    }
  }

  /** In every run each system_server runs the module lifecycle at most once: when its zygote, with
      hooks installed, specialized it, at its fork m, or through one late attach, never both. */
  lemma LifecycleAtMostOnce(states: seq<State>, events: seq<Event>, n: nat, v: Id) returns (m: nat)
    requires Run(states, events) && n < |states| && v in states[n].servers
    ensures m < n && events[m].ServerForks? && events[m].s == v
    ensures (if HooksBefore(states, events, m, events[m].z) then 1 else 0)
            + Times(states, events, n, (s, e) => Hooks(s, e, ServerTarget(v))) <= 1
  {
    RunInv(states, events, n);
    m := SpecializedMeans(states, events, n, v);
    CountsMean(states, events, n, 0, v);
    assert ServerInv(states[n], v);
  }

  /** Whoever starts an injector for a live zygote, rearm or boot path, no other injector is on
      its way to it or on it. */
  lemma NeverTwoInjectors(states: seq<State>, events: seq<Event>, n: nat, i: Id)
    requires Run(states, events) && n < |events| && i in states[n].injectors
    requires events[n].RearmForks? || events[n].HandOff?
    ensures var s := states[n]; var x := s.injectors[i];
            var z := if events[n].HandOff? then events[n].z else s.rearm.pc.z;
            AliveZygote(s, z) && x.target == ZygoteTarget(z) ==> x.phase.Finished?
  {
    var s := states[n];
    RunInv(states, events, n);
    assert InjectorInv(s, i);
    var z := if events[n].HandOff? then events[n].z else s.rearm.pc.z;
    if AliveZygote(s, z) {
      assert ZygoteInv(s, z);
    }
  }

  // ---------- the provisos are needed ----------

  /** A finite run without the provisos. */
  ghost predicate Chain(s: State, events: seq<Event>, s': State)
    decreases |events|
  {
    if events == [] then s == s' else Enabled(s, events[0]) && Chain(Apply(s, events[0]), events[1..], s')
  }

  lemma {:induction false} Extend(s: State, events: seq<Event>, s': State, e: Event)
    requires Chain(s, events, s') && Enabled(s', e)
    ensures Chain(s, events + [e], Apply(s', e))
    decreases |events|
  {
    if events == [] {
      assert Chain(Apply(s, e), [], Apply(s', e));
      assert [e][1..] == [];
    } else {
      Extend(Apply(s, events[0]), events[1..], s', e);
      assert (events + [e])[1..] == events[1..] + [e];
    }
  }

  lemma {:induction false} ExtendAll(s: State, events: seq<Event>, s': State, more: seq<Event>, s'': State)
    requires Chain(s, events, s') && Chain(s', more, s'')
    ensures Chain(s, events + more, s'')
    decreases |more|
  {
    if more == [] {
      assert events + more == events;
    } else {
      Extend(s, events, s', more[0]);
      ExtendAll(s, events + [more[0]], Apply(s', more[0]), more[1..], s'');
      assert events + [more[0]] + more[1..] == events + more;
    }
  }

  lemma Two(s: State, a: Event, s1: State, b: Event, s2: State)
    requires Enabled(s, a) && s1 == Apply(s, a) && Enabled(s1, b) && s2 == Apply(s1, b)
    ensures Chain(s, [a, b], s2)
  {
    assert Chain(s2, [], s2);
    assert [b][1..] == [];
    assert Chain(s1, [b], s2);
    assert [a, b][1..] == [b];
  }

  /** Neither a proviso broken nor a zygote lost. */
  predicate Ordinary(events: seq<Event>) {
    forall n :: 0 <= n < |events| ==> !events[n].RearmTimesOut? && !events[n].ZygoteForkFails? && !events[n].ZygoteDies?
  }

  predicate BareZygote(s: State, z: Id) {
    && s.rearm.Idle? && s.daemon && z in s.zygotes && s.zygotes[z].alive && !InFlight(s, z)
    && !s.zygotes[z].mapped
  }

  function ForkedFor(s: State, z: Id, server: int, i: Id): State
    requires z in s.zygotes
  {
    s.(rearm := Active([], server, false, Waiting(i)),
       injectors := s.injectors[i := Injector(ZygoteTarget(z), false, Coming)],
       zygotes := s.zygotes[z := s.zygotes[z].(last := i)])
  }

  function InjectedBy(s: State, i: Id, z: Id): State
    requires i in s.injectors && z in s.zygotes
  {
    s.(zygotes := s.zygotes[z := s.zygotes[z].(parked := false, mapped := true, maps := s.zygotes[z].maps + 1, hooked := true)],
       injectors := s.injectors[i := s.injectors[i].(phase := Finished(true))],
       confirmed := s.confirmed + {z})
  }

  /** The first half of every rearm that injects zygote `z`, up to the fork of injector `i`. */
  lemma RearmUpToFork(s: State, z: Id, server: int, i: Id) returns (events: seq<Event>)
    requires BareZygote(s, z) && i !in s.injectors && (server >= 0 ==> server in s.servers && s.servers[server].alive)
    ensures Ordinary(events) && Chain(s, events, ForkedFor(s, z, server, i))
  {
    var s2 := s.(rearm := Active([], server, false, Untraced(z)));
    FindsUntraced(s, z, server);
    ForksForBare(s2, z, server, i);
    ExtendAll(s, [RearmBegins([z], server), RearmLooks], s2, [RearmChecksMap, RearmForks(i)], ForkedFor(s, z, server, i));
    events := [RearmBegins([z], server), RearmLooks] + [RearmChecksMap, RearmForks(i)];
  }

  lemma FindsUntraced(s: State, z: Id, server: int)
    requires BareZygote(s, z) && (server >= 0 ==> server in s.servers && s.servers[server].alive)
    ensures Chain(s, [RearmBegins([z], server), RearmLooks], s.(rearm := Active([], server, false, Untraced(z))))
  {
    var s1 := Apply(s, RearmBegins([z], server));
    var s2 := Apply(s1, RearmLooks);
    assert [z][1..] == [];
    Two(s, RearmBegins([z], server), s1, RearmLooks, s2);
  }

  lemma ForksForBare(s: State, z: Id, server: int, i: Id)
    requires s.rearm == Active([], server, false, Untraced(z)) && i !in s.injectors
    requires z in s.zygotes && !s.zygotes[z].mapped
    ensures Chain(s, [RearmChecksMap, RearmForks(i)], ForkedFor(s, z, server, i))
  {
    var s1 := Apply(s, RearmChecksMap);
    var s2 := Apply(s1, RearmForks(i));
    Two(s, RearmChecksMap, s1, RearmForks(i), s2);
  }

  /** A late injector mapping the library into the zygote it was started for, if nothing holds it. */
  lemma Injects(s: State, i: Id, z: Id) returns (events: seq<Event>)
    requires i in s.injectors && s.injectors[i].target == ZygoteTarget(z) && s.injectors[i].phase == Coming
    requires z in s.zygotes && s.zygotes[z].alive && s.zygotes[z].holder == NoOne && s.daemon
    ensures Ordinary(events) && Chain(s, events, InjectedBy(s, i, z))
  {
    var s2 := MappedBy(s, i, z);
    SeizeAndMap(s, i, z);
    HookAndDetach(s2, i, z);
    var s4 := Apply(Apply(s2, InstallHooks(i)), Detach(i));
    assert s4.zygotes == InjectedBy(s, i, z).zygotes;
    assert s4.injectors == InjectedBy(s, i, z).injectors;
    ExtendAll(s, [Seize(i), MapLibrary(i)], s2, [InstallHooks(i), Detach(i)], s4);
    events := [Seize(i), MapLibrary(i)] + [InstallHooks(i), Detach(i)];
  }

  function MappedBy(s: State, i: Id, z: Id): State
    requires i in s.injectors && z in s.zygotes
  {
    s.(zygotes := s.zygotes[z := s.zygotes[z].(holder := HeldBy(i), parked := false, mapped := true, maps := s.zygotes[z].maps + 1)],
       injectors := s.injectors[i := s.injectors[i].(phase := HasMapped)])
  }

  lemma SeizeAndMap(s: State, i: Id, z: Id)
    requires i in s.injectors && s.injectors[i].target == ZygoteTarget(z) && s.injectors[i].phase == Coming
    requires z in s.zygotes && s.zygotes[z].alive && s.zygotes[z].holder == NoOne
    ensures Chain(s, [Seize(i), MapLibrary(i)], MappedBy(s, i, z))
  {
    var s1 := Apply(s, Seize(i));
    var s2 := Apply(s1, MapLibrary(i));
    assert s2.zygotes == MappedBy(s, i, z).zygotes;
    assert s2.injectors == MappedBy(s, i, z).injectors;
    Two(s, Seize(i), s1, MapLibrary(i), s2);
  }

  lemma HookAndDetach(s: State, i: Id, z: Id)
    requires i in s.injectors && s.injectors[i].target == ZygoteTarget(z) && s.injectors[i].phase == HasMapped
    requires z in s.zygotes && s.zygotes[z].alive && s.zygotes[z].holder == HeldBy(i) && s.daemon
    ensures Enabled(s, InstallHooks(i)) && Enabled(Apply(s, InstallHooks(i)), Detach(i))
    ensures var s2 := Apply(Apply(s, InstallHooks(i)), Detach(i));
            && Chain(s, [InstallHooks(i), Detach(i)], s2)
            && s2.zygotes == s.zygotes[z := s.zygotes[z].(hooked := true, holder := NoOne)]
            && s2 == s.(zygotes := s2.zygotes, confirmed := s.confirmed + {z},
                        injectors := s.injectors[i := s.injectors[i].(phase := Finished(true))])
  {
    var s1 := Apply(s, InstallHooks(i));
    var s2 := Apply(s1, Detach(i));
    assert s2.zygotes == s.zygotes[z := s.zygotes[z].(hooked := true, holder := NoOne)];
    assert s2.injectors == s.injectors[i := s.injectors[i].(phase := Finished(true))];
    Two(s, InstallHooks(i), s1, Detach(i), s2);
  }

  /** Without the first proviso: an injector that has not attached when its wait runs out lets a
      second rearm inject the same bare zygote, and then maps the library over it. */
  lemma LateInjectorMapsAgain(s: State, z: Id, i: Id, j: Id) returns (events: seq<Event>, s': State)
    requires BareZygote(s, z) && s.zygotes[z].maps == 0
    requires i !in s.injectors && j !in s.injectors && i != j
    ensures Chain(s, events, s') && z in s'.zygotes && s'.zygotes[z].maps == 2
    ensures forall n :: 0 <= n < |events| ==> !events[n].ZygoteForkFails? && !events[n].ZygoteDies?
  {
    var fork1 := RearmUpToFork(s, z, -1, i);
    var s1 := ForkedFor(s, z, -1, i);
    var s3 := s1.(rearm := Idle);
    GivesUp(s1);
    ExtendAll(s, fork1, s1, [RearmTimesOut, RearmEnds], s3);
    events := fork1 + [RearmTimesOut, RearmEnds];
    var rest;
    rest, s' := SecondRearmMapsTwice(s3, z, i, j);
    ExtendAll(s, events, s3, rest, s');
    events := events + rest;
  }

  /** The wait runs out, and the rearm has nothing left to do. */
  lemma GivesUp(s: State)
    requires s.rearm.Active? && s.rearm.pc.Waiting? && s.rearm.todo == [] && !s.rearm.armed
    ensures Chain(s, [RearmTimesOut, RearmEnds], s.(rearm := Idle))
  {
    var s1 := Apply(s, RearmTimesOut);
    Two(s, RearmTimesOut, s1, RearmEnds, Apply(s1, RearmEnds));
  }

  lemma SecondRearmMapsTwice(s: State, z: Id, i: Id, j: Id) returns (events: seq<Event>, s': State)
    requires BareZygote(s, z) && s.zygotes[z].maps == 0 && s.zygotes[z].holder == NoOne
    requires i in s.injectors && s.injectors[i] == Injector(ZygoteTarget(z), false, Coming)
    requires j !in s.injectors && i != j
    ensures Ordinary(events) && Chain(s, events, s') && z in s'.zygotes && s'.zygotes[z].maps == 2
  {
    var fork2 := RearmUpToFork(s, z, -1, j);
    var s1 := ForkedFor(s, z, -1, j);
    var second := Injects(s1, j, z);
    var s2 := InjectedBy(s1, j, z);
    ExtendAll(s, fork2, s1, second, s2);
    var first := Injects(s2, i, z);
    s' := InjectedBy(s2, i, z);
    ExtendAll(s, fork2 + second, s2, first, s');
    events := fork2 + second + first;
  }

  /** Without the second proviso: a hooked zygote whose fork fails unloads the library, and looks
      bare to the next rearm, which maps it again... */
  lemma FailedForkLooksBare(s: State, z: Id)
    requires s.rearm.Idle? && s.daemon && Enabled(s, ZygoteForkFails(z))
    ensures BareZygote(Apply(s, ZygoteForkFails(z)), z)
  {
  }

  /** ...and then drives the lifecycle a second time in the system_server it had specialized. */
  lemma BareZygoteRunsLifecycleAgain(s: State, z: Id, v: Id, i: Id, j: Id) returns (events: seq<Event>, s': State)
    requires BareZygote(s, z) && v in s.servers && s.servers[v].alive
    requires i !in s.injectors && j !in s.injectors && i != j
    ensures Ordinary(events) && Chain(s, events, s')
    ensures z in s'.zygotes && s'.zygotes[z].maps == s.zygotes[z].maps + 1
    ensures v in s'.servers && s'.servers[v] == s.servers[v].(late := s.servers[v].late + 1, last := j)
  {
    var fork := RearmUpToFork(s, z, v, i);
    var s1 := ForkedFor(s, z, v, i);
    var inject := Injects(s1, i, z);
    var s2 := InjectedBy(s1, i, z);
    ExtendAll(s, fork, s1, inject, s2);
    var rest;
    rest, s' := ArmedRearmReachesServer(s2, v, j);
    ExtendAll(s, fork + inject, s2, rest, s');
    events := fork + inject + rest;
  }

  lemma ArmedRearmReachesServer(s: State, v: Id, j: Id) returns (events: seq<Event>, s': State)
    requires s.rearm.Active? && s.rearm.todo == [] && s.rearm.server == v && s.rearm.pc.Waiting?
    requires s.rearm.pc.i in s.injectors && s.injectors[s.rearm.pc.i].phase == Finished(true)
    requires v in s.servers && s.servers[v].alive && s.daemon && j !in s.injectors
    ensures Ordinary(events) && Chain(s, events, s') && s'.zygotes == s.zygotes
    ensures v in s'.servers && s'.servers[v] == s.servers[v].(late := s.servers[v].late + 1, last := j)
  {
    var s1 := Apply(s, RearmReads);
    var s2 := Apply(s1, RearmForksForServer(j));
    Two(s, RearmReads, s1, RearmForksForServer(j), s2);
    var rest;
    rest, s' := ServerInjected(s2, v, j);
    ExtendAll(s, [RearmReads, RearmForksForServer(j)], s2, rest, s');
    events := [RearmReads, RearmForksForServer(j)] + rest;
  }

  lemma ServerInjected(s: State, v: Id, j: Id) returns (events: seq<Event>, s': State)
    requires j in s.injectors && s.injectors[j] == Injector(ServerTarget(v), false, Coming)
    requires v in s.servers && s.servers[v].alive && s.daemon
    ensures Ordinary(events) && Chain(s, events, s') && s'.zygotes == s.zygotes
    ensures v in s'.servers && s'.servers[v] == s.servers[v].(late := s.servers[v].late + 1)
  {
    var s1 := Apply(s, Seize(j));
    var s2 := Apply(s1, MapLibrary(j));
    Two(s, Seize(j), s1, MapLibrary(j), s2);
    s' := Apply(s2, InstallHooks(j));
    Extend(s, [Seize(j), MapLibrary(j)], s2, InstallHooks(j));
    events := [Seize(j), MapLibrary(j)] + [InstallHooks(j)];
  }

  // ---------- from every reachable state ----------

  /** Who holds a live zygote is an injector at work on it, and one that is parked waits for the
      injector the boot path started last. */
  predicate HoldInv(s: State, z: Id)
    requires z in s.zygotes
  {
    var y := s.zygotes[z];
    y.alive ==>
      && (y.holder.HeldBy? ==>
            && y.holder.injector in s.injectors && s.injectors[y.holder.injector].target == ZygoteTarget(z)
            && s.injectors[y.holder.injector].phase in {Holding, HasMapped, HasHooked})
      && (y.parked ==> y.last in s.injectors && s.injectors[y.last].spawn && s.injectors[y.last].phase == Coming)
  }

  /** And a rearm waits for an injector of its own. */
  ghost predicate Holders(s: State) {
    && (forall z :: z in s.zygotes ==> HoldInv(s, z))
    && (s.rearm.Active? && s.rearm.pc.Waiting? && s.rearm.pc.i in s.injectors ==> !s.injectors[s.rearm.pc.i].spawn)
  }

  lemma HoldersOfWorld(s: State, e: Event)
    requires Inv(s) && Holders(s) && Enabled(s, e)
    requires e.ZygoteStarts? || e.ZygoteDies? || e.ServerForks? || e.ServerDies? || e.HandOff? || e.LetGo?
    ensures Holders(Apply(s, e))
  {
    var s' := Apply(s, e);
    forall z | z in s'.zygotes
      ensures HoldInv(s', z)
    {
      assert z in s.zygotes ==> HoldInv(s, z);
    }
  }

  lemma HoldersOfInjector(s: State, i: Id, s': State)
    requires Inv(s) && Holders(s) && (ActsOnZygote(s, i, s') || ActsOnServer(s, i, s'))
    ensures Holders(s')
  {
    forall z | z in s'.zygotes
      ensures HoldInv(s', z)
    {
      assert HoldInv(s, z) && ZygoteInv(s, z);
    }
  }

  /** A zygote the rearm finds bare is not parked, so its new injector is not taken for the boot path's. */
  lemma HoldersOfRearm(s: State, e: Event)
    requires Inv(s) && Holders(s) && Enabled(s, e)
    requires !e.ZygoteStarts? && !e.ZygoteDies? && !e.ServerForks? && !e.ServerDies? && !e.HandOff? && !e.LetGo?
    requires !e.Seize? && !e.NeverArrives? && !e.MapLibrary? && !e.InstallHooks? && !e.Detach? && !e.ZygoteForkFails?
    ensures Holders(Apply(s, e))
  {
    var s' := Apply(s, e);
    forall z | z in s'.zygotes
      ensures HoldInv(s', z)
    {
      assert HoldInv(s, z);
    }
  }

  lemma HoldersOfStep(s: State, i: Id, e: Event)
    requires Inv(s) && Holders(s) && Enabled(s, e) && StepOf(e, i)
    ensures Holders(Apply(s, e))
  {
    assert InjectorInv(s, i);
    match s.injectors[i].target
    case ZygoteTarget(z) =>
      InjectorActsOnZygote(s, i, e, z);
      HoldersOfInjector(s, i, Apply(s, e));
    case ServerTarget(v) =>
      InjectorActsOnServer(s, i, e, v);
      HoldersOfInjector(s, i, Apply(s, e));
  }

  lemma HoldersStep(s: State, e: Event)
    requires Inv(s) && Holders(s) && Enabled(s, e) && Provided(s, e)
    ensures Holders(Apply(s, e))
  {
    if e.Seize? || e.NeverArrives? || e.MapLibrary? || e.InstallHooks? || e.Detach? {
      HoldersOfStep(s, e.i, e);
    } else if e.ZygoteStarts? || e.ZygoteDies? || e.ServerForks? || e.ServerDies? || e.HandOff? || e.LetGo? {
      HoldersOfWorld(s, e);
    } else {
      HoldersOfRearm(s, e);
    }
  }

  lemma {:induction false} RunHolders(states: seq<State>, events: seq<Event>, n: nat)
    requires Run(states, events) && n < |states|
    ensures Inv(states[n]) && Holders(states[n])
  {
    RunInv(states, events, n);
    if n > 0 {
      RunHolders(states, events, n - 1);
      HoldersStep(states[n - 1], events[n - 1]);
    }
  }

  lemma Fresh(keys: set<Id>) returns (k: Id)
    ensures forall x :: x in keys ==> x < k
  {
    k := 0;
    if keys != {} {
      var x :| x in keys;
      var m := Fresh(keys - {x});
      k := if x < m then m else x + 1;
      assert forall y :: y in keys ==> y == x || y in keys - {x};
    }
  }

  /** Between `s` and `s'` zygote `z` and the system_servers are as they were, but for the injectors
      started for them last, and injector `i` has not moved. */
  predicate Keeps(s: State, s': State, z: Id, i: int) {
    && z in s.zygotes && z in s'.zygotes && s'.zygotes[z] == s.zygotes[z].(last := s'.zygotes[z].last)
    && (i >= 0 && i in s.injectors ==> i in s'.injectors && s'.injectors[i] == s.injectors[i])
    && (forall v :: v in s.servers ==> v in s'.servers && s'.servers[v] == s.servers[v].(last := s'.servers[v].last))
  }

  /** A rearm under way that waits for none but injectors other than `i`, while nothing holds `z`. */
  predicate Winding(s: State, z: Id, i: int) {
    && s.rearm.Active? && z in s.zygotes && s.zygotes[z].alive && !InFlight(s, z)
    && (s.rearm.pc.Waiting? ==> s.rearm.pc.i in s.injectors && s.rearm.pc.i != i)
  }

  /** What brings a rearm nearer its end when every injector gives up. `k` is an unused id. */
  function NextEvent(s: State, k: Id): Event
    requires s.rearm.Active?
  {
    match s.rearm.pc
    case Untraced(_) => RearmChecksMap
    case Bare(_) => RearmForks(k)
    case Waiting(j) =>
      if j in s.injectors && s.injectors[j].phase.Finished? then RearmReads
      else if j in s.injectors && s.injectors[j].phase.Coming? then NeverArrives(j)
      else Detach(j)
    case WaitingServer(_) => RearmEnds
    case Head =>
      if s.rearm.todo != [] then RearmLooks
      else if s.rearm.armed && s.rearm.server >= 0 then RearmForksForServer(k)
      else RearmEnds
  }

  function Distance(s: State): nat {
    if s.rearm.Idle? then 0
    else match s.rearm.pc
      case Untraced(_) => 6
      case Bare(_) => 5
      case Waiting(j) => if j in s.injectors && s.injectors[j].phase.Finished? then 3 else 4
      case Head => 2
      case WaitingServer(_) => 1
  }

  predicate Nearer(s: State, s': State) {
    s.rearm.Active? &&
    (s'.rearm.Active? ==>
       || |s'.rearm.todo| < |s.rearm.todo|
       || (|s'.rearm.todo| == |s.rearm.todo| && Distance(s') < Distance(s)))
  }

  /** The awaited injector gives up, wherever it is. */
  lemma NextOfInjector(s: State, z: Id, i: int, k: Id)
    requires Winding(s, z, i) && s.rearm.pc.Waiting? && !s.injectors[s.rearm.pc.i].phase.Finished?
    ensures Enabled(s, NextEvent(s, k))
    ensures var s' := Apply(s, NextEvent(s, k)); Keeps(s, s', z, i) && Winding(s', z, i) && Nearer(s, s')
  {
    var j := s.rearm.pc.i;
    var e := NextEvent(s, k);
    if e.Detach? {
      assert Apply(s, e) == Released(SetPhase(s, j, Finished(s.injectors[j].phase == HasHooked)), j);
    }
  }

  /** Any other step is the rearm's own: it looks, it forks for a zygote, or it comes to its last steps. */
  lemma NextLook(s: State, z: Id, i: int, k: Id)
    requires Winding(s, z, i)
    requires match s.rearm.pc
             case Untraced(_) => true
             case Waiting(j) => s.injectors[j].phase.Finished?
             case Head => s.rearm.todo != []
             case _ => false
    ensures Enabled(s, NextEvent(s, k))
    ensures var s' := Apply(s, NextEvent(s, k)); Keeps(s, s', z, i) && Winding(s', z, i) && Nearer(s, s')
  {
  }

  lemma NextFork(s: State, z: Id, i: int, k: Id)
    requires Winding(s, z, i) && k !in s.injectors && k > i && s.rearm.pc.Bare?
    ensures Enabled(s, NextEvent(s, k))
    ensures var s' := Apply(s, NextEvent(s, k)); Keeps(s, s', z, i) && Winding(s', z, i) && Nearer(s, s')
  {
  }

  lemma NextLast(s: State, z: Id, i: int, k: Id)
    requires Winding(s, z, i) && k !in s.injectors && k > i
    requires s.rearm.pc.WaitingServer? || (s.rearm.pc == Head && s.rearm.todo == [])
    ensures Enabled(s, NextEvent(s, k))
    ensures var s' := Apply(s, NextEvent(s, k)); Keeps(s, s', z, i) && (s'.rearm.Idle? || Winding(s', z, i)) && Nearer(s, s')
  {
  }

  lemma NextStep(s: State, z: Id, i: int, k: Id) returns (e: Event, s': State)
    requires Winding(s, z, i) && k !in s.injectors && k > i
    ensures Enabled(s, e) && s' == Apply(s, e) && Ordinary([e])
    ensures Keeps(s, s', z, i) && (s'.rearm.Idle? || Winding(s', z, i)) && Nearer(s, s')
  {
    match s.rearm.pc {
      case Waiting(j) =>
        if s.injectors[j].phase.Finished? {
          NextLook(s, z, i, k);
        } else {
          NextOfInjector(s, z, i, k);
        }
      case Untraced(_) => NextLook(s, z, i, k);
      case Bare(_) => NextFork(s, z, i, k);
      case WaitingServer(_) => NextLast(s, z, i, k);
      case Head =>
        if s.rearm.todo != [] {
          NextLook(s, z, i, k);
        } else {
          NextLast(s, z, i, k);
        }
    }
    e := NextEvent(s, k);
    s' := Apply(s, e);
  }

  lemma Prepend(s: State, e: Event, events: seq<Event>, s': State)
    requires Enabled(s, e) && Chain(Apply(s, e), events, s')
    ensures Chain(s, [e] + events, s')
  {
    assert ([e] + events)[1..] == events;
  }

  lemma KeepsOn(s: State, s': State, s'': State, z: Id, i: int)
    requires Keeps(s, s', z, i) && Keeps(s', s'', z, i)
    ensures Keeps(s, s'', z, i)
  {
  }

  /** A rearm always comes to its end by steps of its own and of its injectors. */
  lemma {:induction false} WindsDown(s: State, z: Id, i: int) returns (events: seq<Event>, s': State)
    requires Winding(s, z, i)
    ensures Ordinary(events) && Chain(s, events, s') && s'.rearm.Idle? && Keeps(s, s', z, i)
    decreases |s.rearm.todo|, Distance(s)
  {
    var k := Fresh(s.injectors.Keys + if i >= 0 then {i} else {});
    var e, s1 := NextStep(s, z, i, k);
    if s1.rearm.Idle? {
      s' := s1;
      events := [e];
      assert Chain(s1, [], s');
      assert [e] + [] == [e];
      Prepend(s, e, [], s');
    } else {
      var rest;
      rest, s' := WindsDown(s1, z, i);
      Prepend(s, e, rest, s');
      KeepsOn(s, s1, s', z, i);
      events := [e] + rest;
    }
  }

  /** ...and then a daemon can be there. */
  lemma ComesToRest(s: State, z: Id, i: int) returns (events: seq<Event>, s': State)
    requires s.rearm.Idle? || Winding(s, z, i)
    requires z in s.zygotes && s.zygotes[z].alive && !InFlight(s, z) && !s.zygotes[z].mapped
    ensures Ordinary(events) && Chain(s, events, s') && BareZygote(s', z) && Keeps(s, s', z, i)
  {
    events, s' := [], s;
    if s.rearm.Active? {
      events, s' := WindsDown(s, z, i);
    }
    Extend(s, events, s', DaemonStarts);
    events, s' := events + [DaemonStarts], Apply(s', DaemonStarts);
  }

  /** The first proviso is needed everywhere: in every reachable state in which a wait may run out
      before its injector has attached, and the zygote is alive, letting it run out can end in two
      mappings, with neither a zygote lost nor another proviso broken. */
  lemma TimeoutMapsAgain(states: seq<State>, past: seq<Event>, n: nat, z: Id) returns (events: seq<Event>, s': State)
    requires Run(states, past) && n < |states|
    requires Enabled(states[n], RearmTimesOut) && !Provided(states[n], RearmTimesOut)
    requires states[n].rearm.pc.i in states[n].injectors ==> states[n].injectors[states[n].rearm.pc.i].target == ZygoteTarget(z)
    requires AliveZygote(states[n], z)
    ensures Ordinary(events) && Chain(states[n], [RearmTimesOut] + events, s')
    ensures z in s'.zygotes && s'.zygotes[z].maps == 2
  {
    var s := states[n];
    var i := s.rearm.pc.i;
    RunHolders(states, past, n);
    StalledIs(s, z, i);
    var s1 := Apply(s, RearmTimesOut);
    var rest, s2 := ComesToRest(s1, z, i);
    var j := Fresh(s2.injectors.Keys);
    var more;
    more, s' := SecondRearmMapsTwice(s2, z, i, j);
    ExtendAll(s1, rest, s2, more, s');
    events := rest + more;
    Prepend(s, RearmTimesOut, events, s');
  }

  /** An injector that is still to come for a live zygote, and that a rearm waits for, is the only
      one on its way to it: nothing holds the zygote, nothing is mapped. */
  lemma StalledIs(s: State, z: Id, i: Id)
    requires Inv(s) && Holders(s) && AliveZygote(s, z)
    requires s.rearm.Active? && s.rearm.pc == Waiting(i)
    requires i in s.injectors && s.injectors[i].phase == Coming && s.injectors[i].target == ZygoteTarget(z)
    ensures !InFlight(s, z) && s.zygotes[z].maps == 0 && !s.zygotes[z].mapped && s.zygotes[z].holder == NoOne
    ensures s.injectors[i] == Injector(ZygoteTarget(z), false, Coming)
  {
    assert InjectorInv(s, i) && ZygoteInv(s, z) && HoldInv(s, z);
    HolderIsAtWork(s, z);
  }

  lemma HolderIsAtWork(s: State, z: Id)
    requires Inv(s) && Holders(s) && AliveZygote(s, z)
    ensures var y := s.zygotes[z];
            y.holder.HeldBy? ==> y.maps == 1 || (y.last in s.injectors && s.injectors[y.last].phase.Holding?)
  {
    var y := s.zygotes[z];
    assert HoldInv(s, z);
    if y.holder.HeldBy? {
      assert InjectorInv(s, y.holder.injector);
    }
  }

  lemma RearmMaps(s: State, z: Id, i: Id) returns (events: seq<Event>, s': State)
    requires BareZygote(s, z) && i !in s.injectors
    ensures Ordinary(events) && Chain(s, events, s') && z in s'.zygotes && s'.zygotes[z].maps == s.zygotes[z].maps + 1
  {
    var fork := RearmUpToFork(s, z, -1, i);
    var s1 := ForkedFor(s, z, -1, i);
    var inject := Injects(s1, i, z);
    s' := InjectedBy(s1, i, z);
    ExtendAll(s, fork, s1, inject, s');
    events := fork + inject;
  }

  /** So is the second: in every reachable state in which the fork of a hooked zygote may fail, its
      failing can end in a second mapping... */
  lemma ForkFailureMapsAgain(states: seq<State>, past: seq<Event>, n: nat, z: Id) returns (events: seq<Event>, s': State)
    requires Run(states, past) && n < |states| && Enabled(states[n], ZygoteForkFails(z))
    ensures Ordinary(events) && Chain(states[n], [ZygoteForkFails(z)] + events, s')
    ensures z in s'.zygotes && s'.zygotes[z].maps == 2
  {
    var s := states[n];
    RunInv(states, past, n);
    assert ZygoteInv(s, z);
    var s1 := Apply(s, ZygoteForkFails(z));
    var rest, s2 := ComesToRest(s1, z, -1);
    var i := Fresh(s2.injectors.Keys);
    var more;
    more, s' := RearmMaps(s2, z, i);
    ExtendAll(s1, rest, s2, more, s');
    events := rest + more;
    Prepend(s, ZygoteForkFails(z), events, s');
  }

  /** How often the module lifecycle ran in it. */
  function Lifecycles(x: Server): nat {
    (if x.specialized then 1 else 0) + x.late
  }

  /** ...and run the lifecycle once more in any system_server alive then. */
  lemma ForkFailureRunsLifecycleAgain(states: seq<State>, past: seq<Event>, n: nat, z: Id, v: Id)
    returns (events: seq<Event>, s': State)
    requires Run(states, past) && n < |states| && Enabled(states[n], ZygoteForkFails(z))
    requires v in states[n].servers && states[n].servers[v].alive
    ensures Ordinary(events) && Chain(states[n], [ZygoteForkFails(z)] + events, s')
    ensures v in s'.servers && Lifecycles(s'.servers[v]) == Lifecycles(states[n].servers[v]) + 1
  {
    var s := states[n];
    RunInv(states, past, n);
    var s1 := Apply(s, ZygoteForkFails(z));
    var rest, s2 := ComesToRest(s1, z, -1);
    var i := Fresh(s2.injectors.Keys);
    var j := Fresh(s2.injectors.Keys + {i});
    var more;
    more, s' := BareZygoteRunsLifecycleAgain(s2, z, v, i, j);
    ExtendAll(s1, rest, s2, more, s');
    events := rest + more;
    Prepend(s, ZygoteForkFails(z), events, s');
  }

  /** A zygote that the boot path lets go, uninjected, is bare. */
  lemma LetGoLeavesBare(states: seq<State>, past: seq<Event>, n: nat, z: Id)
    requires Run(states, past) && n < |states| && Enabled(states[n], LetGo(z)) && states[n].daemon
    ensures BareZygote(Apply(states[n], LetGo(z)), z)
  {
    RunHolders(states, past, n);
    assert ZygoteInv(states[n], z) && HoldInv(states[n], z);
  }

  lemma RunOn(states: seq<State>, events: seq<Event>, e: Event) returns (states': seq<State>, events': seq<Event>)
    requires Run(states, events) && Enabled(states[|events|], e) && Provided(states[|events|], e)
    ensures states' == states + [Apply(states[|events|], e)] && events' == events + [e]
    ensures Run(states', events')
  {
    states', events' := states + [Apply(states[|events|], e)], events + [e];
  }

  lemma {:induction false} RunAlong(states: seq<State>, events: seq<Event>, more: seq<Event>, s': State)
    returns (states': seq<State>, events': seq<Event>)
    requires Run(states, events) && Ordinary(more) && Chain(states[|events|], more, s')
    ensures Run(states', events') && states'[0] == states[0] && states'[|events'|] == s'
    decreases |more|
  {
    states', events' := states, events;
    if more != [] {
      states', events' := RunOn(states, events, more[0]);
      states', events' := RunAlong(states', events', more[1..], s');
    }
  }

  /** Such states are reached: a zygote that was not caught at its exec is bare... */
  lemma BareZygoteReached(s: State) returns (states: seq<State>, events: seq<Event>)
    requires Initial(s)
    ensures Run(states, events) && states[0] == s
    ensures var t := states[|events|]; BareZygote(t, 0) && t.zygotes[0].maps == 0 && t.injectors == map[]
  {
    var s1 := Apply(s, DaemonStarts);
    var s2 := Apply(s1, ZygoteStarts(0, false));
    Two(s, DaemonStarts, s1, ZygoteStarts(0, false), s2);
    states, events := RunAlong([s], [], [DaemonStarts, ZygoteStarts(0, false)], s2);
  }

  /** ...and the first rearm after it waits for an injector that has not come. */
  lemma StalledReached(s: State) returns (states: seq<State>, events: seq<Event>)
    requires Initial(s)
    ensures Run(states, events) && states[0] == s
    ensures var t := states[|events|];
            && Enabled(t, RearmTimesOut) && !Provided(t, RearmTimesOut) && AliveZygote(t, 0)
            && t.rearm.pc.i in t.injectors && t.injectors[t.rearm.pc.i].target == ZygoteTarget(0)
  {
    states, events := BareZygoteReached(s);
    var t := states[|events|];
    var fork := RearmUpToFork(t, 0, -1, 0);
    states, events := RunAlong(states, events, fork, ForkedFor(t, 0, -1, 0));
  }

  function HandedOff(s: State, z: Id, i: Id): State
    requires z in s.zygotes
  {
    s.(zygotes := s.zygotes[z := s.zygotes[z].(holder := NoOne, parked := true, last := i)],
       injectors := s.injectors[i := Injector(ZygoteTarget(z), true, Coming)])
  }

  /** The way a boot goes: a zygote is caught, handed off, hooked by its injector, and specializes
      the system_server it forks, which no late injector touches. */
  lemma BootReached(s: State) returns (states: seq<State>, events: seq<Event>)
    requires Initial(s)
    ensures Run(states, events) && states[0] == s
    ensures var t := states[|events|];
            && 0 in t.servers && t.servers[0] == Server(true, 0, true, 0, -1)
            && 0 in t.zygotes && t.zygotes[0].hooked && t.zygotes[0].maps == 1 && !InFlight(t, 0)
  {
    var s1 := Apply(s, DaemonStarts);
    var s2 := Apply(s1, ZygoteStarts(0, true));
    Two(s, DaemonStarts, s1, ZygoteStarts(0, true), s2);
    states, events := RunAlong([s], [], [DaemonStarts, ZygoteStarts(0, true)], s2);
    states, events := RunOn(states, events, HandOff(0, 0));
    var s3 := HandedOff(s2, 0, 0);
    var inject := Injects(s3, 0, 0);
    states, events := RunAlong(states, events, inject, InjectedBy(s3, 0, 0));
    states, events := RunOn(states, events, ServerForks(0, 0));
  }

}
