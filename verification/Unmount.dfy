/**
 Hiding module mounts: which mounts of the zygote are traces, the one pass that unmounts them, and
 what a forked process asks for when it gets a mount namespace of its own.
 */
module Unmount {
  import opened Sequences

  datatype Mount = Mount(id: nat, root: string, target: string, source: string)

  /** What the daemon says of a process: which root implementation there is, and the process's
      standing with it. */
  datatype Flags = Flags(apatch: bool, kernelSu: bool, magisk: bool, manager: bool, grantedRoot: bool)

  /** The names that give traces away. */
  datatype Names =
    Names(modules: string, modulesRoot: string, loop: string, product: string, productBin: string,
          apatch: string, kernelSu: string, magisk: string)

  const NAMES := Names("/data/adb/modules", "/adb/modules", "/dev/block/loop", "/product", "/product/bin",
                       "APatch", "KSU", "magisk")

  // ---------- the traces ----------

  datatype Source = NoSource | Source(name: string)

  function SourceName(c: Names, f: Flags): Source {
    if f.apatch then Source(c.apatch)
    else if f.kernelSu then Source(c.kernelSu)
    else if f.magisk then Source(c.magisk)
    else NoSource
  }

  predicate IsLoop(c: Names, m: Mount) {
    m.target == c.modules && c.loop <= m.source
  }

  /** The loop device the modules are on: the source of the first mount there that has one. */
  function LoopSource(c: Names, ms: seq<Mount>): (s: Source)
    ensures s.NoSource? <==> forall m <- ms :: !IsLoop(c, m)
    ensures s.Source? ==> c.loop <= s.name
  {
    if ms == [] then NoSource else if IsLoop(c, ms[0]) then Source(ms[0].source) else LoopSource(c, ms[1..])
  }

  /** The daemon's search for it: the first mount there, if that has a loop device for source. */
  function LoopSourceOfFirst(c: Names, ms: seq<Mount>): Source {
    if ms == [] then NoSource
    else if ms[0].target == c.modules then (if c.loop <= ms[0].source then Source(ms[0].source) else NoSource)
    else LoopSourceOfFirst(c, ms[1..])
  }

  /** The first mount on the modules' directory, or |ms|. */
  function FirstThere(c: Names, ms: seq<Mount>): (i: nat)
    ensures i <= |ms| && (i < |ms| ==> ms[i].target == c.modules)
    ensures forall j :: 0 <= j < i ==> ms[j].target != c.modules
  {
    if ms == [] || ms[0].target == c.modules then 0 else 1 + FirstThere(c, ms[1..])
  }

  predicate FirstIsLoop(c: Names, ms: seq<Mount>) {
    FirstThere(c, ms) < |ms| && IsLoop(c, ms[FirstThere(c, ms)])
  }

  lemma {:induction false} FirstLoopSource(c: Names, ms: seq<Mount>)
    ensures FirstIsLoop(c, ms) ==> LoopSource(c, ms) == LoopSourceOfFirst(c, ms) == Source(ms[FirstThere(c, ms)].source)
    ensures !FirstIsLoop(c, ms) ==> LoopSourceOfFirst(c, ms) == NoSource
  {
    if ms != [] && ms[0].target != c.modules {
      FirstLoopSource(c, ms[1..]);
    }
  }

  /** The two agree exactly if the first mount on the modules' directory is a loop mount or no mount
      there is. */
  lemma LoopSourcesAgreeExactly(c: Names, ms: seq<Mount>)
    ensures LoopSource(c, ms) == LoopSourceOfFirst(c, ms) <==> FirstIsLoop(c, ms) || forall m <- ms :: !IsLoop(c, m)
  {
    FirstLoopSource(c, ms);
  }

  predicate IsTrace(c: Names, m: Mount, name: string, loop: Source) {
    c.modulesRoot <= m.root || c.modules <= m.target || m.source == name || (loop.Source? && m.source == loop.name)
  }

  /** The traces in a list of mounts, in list order. */
  function Traces(c: Names, ms: seq<Mount>, name: string, loop: Source): (t: seq<Mount>)
    ensures forall m :: m in t <==> m in ms && IsTrace(c, m, name, loop)
    ensures |t| <= |ms|
  {
    if ms == [] then []
    else
      var n := |ms| - 1;
      Traces(c, ms[..n], name, loop) + if IsTrace(c, ms[n], name, loop) then [ms[n]] else []
  }

  /** Mounts are told apart by their ids. */
  const ID := (m: Mount) => m.id

  /** The zygote's traces, highest mount id first; none if the root implementation is unknown. */
  function ZygoteTraces(c: Names, ms: seq<Mount>, f: Flags): (t: seq<Mount>)
    ensures Descending(t, ID)
    ensures SourceName(c, f).NoSource? ==> t == []
  {
    var name := SourceName(c, f);
    if name.NoSource? then []
    else Sorted(Traces(c, ms, name.name, if f.kernelSu && !f.apatch then LoopSource(c, ms) else NoSource), ID)
  }

  method FindLoopSource(c: Names, ms: seq<Mount>) returns (s: Source)
    ensures s == LoopSource(c, ms)
  {
    var i := 0;
    assert ms[0..] == ms;
    while i < |ms|
      invariant 0 <= i <= |ms| && LoopSource(c, ms[i..]) == LoopSource(c, ms)
    {
      assert ms[i..][0] == ms[i] && ms[i..][1..] == ms[i + 1..];
      if IsLoop(c, ms[i]) {
        return Source(ms[i].source);
      }
      i := i + 1;
    }
    return NoSource;
  }

  method CheckZygoteTraces(c: Names, ms: seq<Mount>, f: Flags) returns (traces: seq<Mount>)
    ensures traces == ZygoteTraces(c, ms, f)
  {
    traces := [];
    if ms == [] {
      return;
    }
    var name, kernelSu := "", false;
    if f.apatch {
      name := c.apatch;
    } else if f.kernelSu {
      name, kernelSu := c.kernelSu, true;
    } else if f.magisk {
      name := c.magisk;
    } else {
      return;
    }
    var loop := NoSource;
    if kernelSu {
      loop := FindLoopSource(c, ms);
    }
    for i := 0 to |ms|
      invariant traces == Traces(c, ms[..i], name, loop)
    {
      assert ms[..i + 1][..i] == ms[..i];
      var shouldUnmount := c.modulesRoot <= ms[i].root || c.modules <= ms[i].target || ms[i].source == name
                           || (loop != NoSource && ms[i].source == loop.name);
      if shouldUnmount {
        traces := traces + [ms[i]];
      }
    }
    assert ms[..|ms|] == ms;
    if traces != [] {
      traces := Sorted(traces, ID);
    }
  }

  /** Mounts with different ids come out strictly descending, each trace once and nothing else. */
  lemma {:induction false} TracesDistinct(c: Names, ms: seq<Mount>, name: string, loop: Source)
    requires DistinctKeys(ms, ID)
    ensures DistinctKeys(Traces(c, ms, name, loop), ID)
  {
    if ms != [] {
      var n := |ms| - 1;
      var front := Traces(c, ms[..n], name, loop);
      TracesDistinct(c, ms[..n], name, loop);
      forall i | 0 <= i < |front| ensures front[i].id != ms[n].id {
        assert front[i] in front;
        var j :| 0 <= j < n && ms[..n][j] == front[i];
      }
    }
  }

  // What is selected, without the words of the selection:

  predicate StartsWith(text: string, prefix: string) {
    |prefix| <= |text| && text[..|prefix|] == prefix
  }

  /** The i-th mount is the first that has the modules' directory on a loop device. */
  predicate FirstLoop(c: Names, ms: seq<Mount>, i: int) {
    && 0 <= i < |ms| && ms[i].target == c.modules && StartsWith(ms[i].source, c.loop)
    && forall j :: 0 <= j < i ==> !(ms[j].target == c.modules && StartsWith(ms[j].source, c.loop))
  }

  /** A mount that gives the modules away, to one of the three root implementations. */
  ghost predicate GivesAway(c: Names, ms: seq<Mount>, f: Flags, m: Mount) {
    && (f.apatch || f.kernelSu || f.magisk)
    && (|| StartsWith(m.root, c.modulesRoot)
        || StartsWith(m.target, c.modules)
        || m.source == (if f.apatch then c.apatch else if f.kernelSu then c.kernelSu else c.magisk)
        || (f.kernelSu && !f.apatch && exists i :: FirstLoop(c, ms, i) && m.source == ms[i].source))
  }

  lemma {:induction false} LoopSourceIs(c: Names, ms: seq<Mount>, name: string)
    ensures LoopSource(c, ms) == Source(name) <==> exists i :: FirstLoop(c, ms, i) && ms[i].source == name
  {
    if ms != [] {
      LoopSourceIs(c, ms[1..], name);
      if IsLoop(c, ms[0]) {
        assert FirstLoop(c, ms, 0);
        assert forall i :: FirstLoop(c, ms, i) ==> i == 0;
      } else {
        assert forall i :: 0 <= i < |ms[1..]| ==> ms[1..][i] == ms[i + 1];
        forall i ensures FirstLoop(c, ms[1..], i) <==> FirstLoop(c, ms, i + 1) {
          assert FirstLoop(c, ms, i + 1) ==> forall j :: 0 <= j < i ==> ms[1..][j] == ms[j + 1];
        }
        assert forall i :: FirstLoop(c, ms, i) ==> FirstLoop(c, ms[1..], i - 1);
      }
    }
  }

  lemma TraceGivesAway(c: Names, ms: seq<Mount>, f: Flags, m: Mount)
    ensures GivesAway(c, ms, f, m) <==>
              && SourceName(c, f).Source?
              && IsTrace(c, m, SourceName(c, f).name, if f.kernelSu && !f.apatch then LoopSource(c, ms) else NoSource)
  {
    LoopSourceIs(c, ms, m.source);
  }

  /** Mounts with different ids come out strictly descending: all that give the modules away, and
      nothing else. */
  lemma ZygoteTracesAre(c: Names, ms: seq<Mount>, f: Flags)
    requires DistinctKeys(ms, ID)
    ensures StrictlyDescending(ZygoteTraces(c, ms, f), ID)
    ensures forall m :: m in ZygoteTraces(c, ms, f) <==> m in ms && GivesAway(c, ms, f, m)
  {
    var name := SourceName(c, f);
    if name.Source? {
      var loop := if f.kernelSu && !f.apatch then LoopSource(c, ms) else NoSource;
      TracesDistinct(c, ms, name.name, loop);
      SortedStrictly(Traces(c, ms, name.name, loop), ID);
    }
    forall m ensures m in ZygoteTraces(c, ms, f) <==> m in ms && GivesAway(c, ms, f, m) {
      TraceGivesAway(c, ms, f, m);
    }
  }

  /** With the names as they are, on a device with KernelSU whose modules are on a loop device. */
  lemma KernelSuTraces(rest: seq<Mount>, m: Mount)
    requires m in rest
    ensures var ms := [Mount(9, "/", "/data/adb/modules", "/dev/block/loop7")] + rest;
            var f := Flags(false, true, false, false, false);
            GivesAway(NAMES, ms, f, m) <==>
              StartsWith(m.root, "/adb/modules") || StartsWith(m.target, "/data/adb/modules")
              || m.source == "KSU" || m.source == "/dev/block/loop7"
  {
    var ms := [Mount(9, "/", "/data/adb/modules", "/dev/block/loop7")] + rest;
    assert FirstLoop(NAMES, ms, 0);
    assert forall i :: FirstLoop(NAMES, ms, i) ==> i == 0;
  }

  // ---------- the pass ----------

  /** A target whose unmounting would take the zygote's resource overlays away. */
  predicate Prohibited(c: Names, m: Mount, magisk: bool) {
    c.product <= m.target && !(c.productBin <= m.target) && (magisk || m.target == c.product)
  }

  predicate Aborts(c: Names, traces: seq<Mount>, f: Flags) {
    traces == [] || exists m <- traces :: Prohibited(c, m, f.magisk)
  }

  /** A mount on the products' directory, or with Magisk anywhere in it, but for its programs. */
  predicate TakesOverlays(c: Names, m: Mount, magisk: bool) {
    && (m.target == c.product || (magisk && StartsWith(m.target, c.product)))
    && !StartsWith(m.target, c.productBin)
  }

  lemma ProhibitedIs(c: Names, m: Mount, magisk: bool)
    ensures Prohibited(c, m, magisk) <==> TakesOverlays(c, m, magisk)
  {
  }

  /** With the names as they are. */
  lemma ProhibitedTargets(m: Mount, magisk: bool)
    ensures m.target == "/product" ==> Prohibited(NAMES, m, magisk)
    ensures m.target == "/product/overlay" ==> (Prohibited(NAMES, m, magisk) <==> magisk)
    ensures m.target == "/product/bin/sh" || m.target == "/system/product" ==> !Prohibited(NAMES, m, magisk)
  {
    ProhibitedIs(NAMES, m, magisk);
    assert "/product/overlay"[..8] == "/product" && "/product/overlay"[9] != "/product/bin"[9];
    assert "/product/bin/sh"[..12] == "/product/bin" && "/system/product"[1] != "/product"[1];
  }

  method AbortZygoteUnmount(c: Names, traces: seq<Mount>, f: Flags) returns (abort: bool)
    ensures abort <==> Aborts(c, traces, f)
    ensures abort <==> traces == [] || exists m <- traces :: TakesOverlays(c, m, f.magisk)
  {
    forall m: Mount ensures Prohibited(c, m, f.magisk) <==> TakesOverlays(c, m, f.magisk) {
      ProhibitedIs(c, m, f.magisk);
    }
    if |traces| == 0 {
      return true;
    }
    for i := 0 to |traces|
      invariant forall j :: 0 <= j < i ==> !Prohibited(c, traces[j], f.magisk)
    {
      if c.product <= traces[i].target {
        if c.productBin <= traces[i].target {
          continue;
        }
        if !f.magisk && traces[i].target != c.product {
          continue;
        }
        assert traces[i] in traces && Prohibited(c, traces[i], f.magisk);
        return true;
      }
    }
    return false;
  }

  /** An attempt to unmount, and whether it worked. */
  datatype Attempt = Attempt(mount: Mount, ok: bool)

  function Attempts(traces: seq<Mount>, works: Mount -> bool): (a: seq<Attempt>)
    ensures |a| == |traces|
  {
    seq(|traces|, i requires 0 <= i < |traces| => Attempt(traces[i], works(traces[i])))
  }

  /** The mounts whose unmounting failed, in order. */
  function Failed(pass: seq<Attempt>): seq<Mount> {
    if pass == [] then []
    else Failed(pass[..|pass| - 1]) + if pass[|pass| - 1].ok then [] else [pass[|pass| - 1].mount]
  }

  /** The zygote's record of its traces, and every pass it made. */
  datatype Zygote = Zygote(traces: seq<Mount>, unmounted: bool, passes: seq<Pass>)

  /** What a fork finds: the zygote's mounts, the daemon's answer, and what can be unmounted. */
  datatype Fork = Fork(mounts: seq<Mount>, flags: Flags, works: Mount -> bool)

  /** A pass and the fork that made it. */
  datatype Pass = Pass(fork: Fork, attempts: seq<Attempt>)

  const BORN := Zygote([], false, [])

  function Forked(c: Names, z: Zygote, e: Fork): Zygote {
    if z.unmounted || z.traces != [] then z
    else
      var traces := ZygoteTraces(c, e.mounts, e.flags);
      if Aborts(c, traces, e.flags) then z.(traces := traces)
      else
        var pass := Attempts(traces, e.works);
        Zygote(Failed(pass), true, z.passes + [Pass(e, pass)])
  }

  class HookContext {
    var traces: seq<Mount>
    var unmounted: bool
    ghost var passes: seq<Pass>

    constructor ()
      ensures State() == BORN
    {
      traces, unmounted, passes := [], false, [];
    }

    ghost function State(): Zygote
      reads this
    {
      Zygote(traces, unmounted, passes)
    }

    /** Tries each trace once, in order, and keeps those that could not be unmounted. */
    method RemoveUnmounted(works: Mount -> bool) returns (ghost pass: seq<Attempt>)
      modifies this`traces
      ensures pass == Attempts(old(traces), works) && traces == Failed(pass)
    {
      var kept: seq<Mount> := [];
      pass := [];
      for i := 0 to |traces|
        invariant pass == Attempts(traces, works)[..i] && kept == Failed(pass)
      {
        var ok := works(traces[i]);
        if !ok {
          kept := kept + [traces[i]];
        }
        ghost var was := pass;
        pass := pass + [Attempt(traces[i], ok)];
        assert pass[..i] == was;
      }
      assert pass == Attempts(traces, works);
      traces := kept;
    }

    method NativeForkAndSpecializePre(c: Names, e: Fork)
      modifies this
      ensures State() == Forked(c, old(State()), e)
    {
      if !unmounted && |traces| == 0 {
        traces := CheckZygoteTraces(c, e.mounts, e.flags);
        var abort := AbortZygoteUnmount(c, traces, e.flags);
        if !abort {
          ghost var pass := RemoveUnmounted(e.works);
          passes := passes + [Pass(e, pass)];
          unmounted := true;
        }
      }
    }

    method NewUnshare(p: Process) returns (asked: seq<Namespace>)
      ensures asked == Asked(State(), p)
    {
      asked := [];
      if p.newNamespace && !p.server {
        var shouldUnmount := !(p.flags.manager || p.flags.grantedRoot) && p.revert;
        if !shouldUnmount && unmounted {
          asked := asked + [Root];
        }
        var clean := unmounted && |traces| == 0;
        if shouldUnmount && !clean {
          asked := asked + [Clean];
        }
      }
    }
  }

  // ---------- a zygote's life ----------

  /** A zygote after these forks. */
  function Life(c: Names, forks: seq<Fork>): Zygote {
    if forks == [] then BORN else Forked(c, Life(c, forks[..|forks| - 1]), forks[|forks| - 1])
  }

  /** A pass tries all the traces its fork found, and was right to. */
  predicate PassOk(c: Names, p: Pass) {
    var traces := ZygoteTraces(c, p.fork.mounts, p.fork.flags);
    p.attempts == Attempts(traces, p.fork.works) && !Aborts(c, traces, p.fork.flags)
  }

  /** No pass was made, or one; what failed is what is left. */
  ghost predicate Consistent(c: Names, z: Zygote, forks: seq<Fork>) {
    if z.passes == [] then !z.unmounted
    else
      && |z.passes| == 1 && z.unmounted && z.traces == Failed(z.passes[0].attempts)
      && PassOk(c, z.passes[0]) && z.passes[0].fork in forks
  }

  lemma {:induction false} LifeKeeps(c: Names, forks: seq<Fork>)
    ensures Consistent(c, Life(c, forks), forks)
  {
    if forks != [] {
      var front, last := forks[..|forks| - 1], forks[|forks| - 1];
      LifeKeeps(c, front);
      ForkKeeps(c, Life(c, front), front, last);
      assert front + [last] == forks;
    }
  }

  lemma ForkKeeps(c: Names, z: Zygote, before: seq<Fork>, e: Fork)
    requires Consistent(c, z, before)
    ensures Consistent(c, Forked(c, z, e), before + [e])
  {
    assert e in before + [e];
  }

  /** Over the whole life of a zygote the pass runs at most once. It tries every trace it found,
      and exactly those that failed are left, in order. */
  lemma OnePass(c: Names, forks: seq<Fork>)
    ensures var z := Life(c, forks);
            && |z.passes| <= 1 && (z.unmounted <==> |z.passes| == 1)
            && (z.unmounted ==> z.traces == Failed(z.passes[0].attempts) && PassOk(c, z.passes[0]) && z.passes[0].fork in forks)
  {
    LifeKeeps(c, forks);
  }

  /** The traces the i-th fork would find. */
  function Found(c: Names, forks: seq<Fork>, i: nat): seq<Mount>
    requires i < |forks|
  {
    ZygoteTraces(c, forks[i].mounts, forks[i].flags)
  }

  /** The first fork that finds any traces. */
  predicate FirstFinds(c: Names, forks: seq<Fork>, i: nat) {
    i < |forks| && Found(c, forks, i) != [] && forall j: nat :: j < i ==> Found(c, forks, j) == []
  }

  /** As long as no fork finds traces, nothing happens. */
  lemma {:induction false} NothingFound(c: Names, forks: seq<Fork>)
    requires forall i: nat :: i < |forks| ==> Found(c, forks, i) == []
    ensures Life(c, forks) == BORN
  {
    if forks != [] {
      var n := |forks| - 1;
      assert forall i: nat :: i < n ==> Found(c, forks[..n], i) == Found(c, forks, i);
      NothingFound(c, forks[..n]);
      assert Found(c, forks, n) == [];
    }
  }

  lemma {:induction false} FirstFindStays(c: Names, forks: seq<Fork>, i: nat)
    requires FirstFinds(c, forks, i)
    ensures Life(c, forks) == Forked(c, BORN, forks[i])
  {
    var n := |forks| - 1;
    var front := forks[..n];
    assert forall j: nat :: j < n ==> Found(c, front, j) == Found(c, forks, j);
    if i == n {
      NothingFound(c, front);
    } else {
      FirstFindStays(c, front, i);
      assert front[i] == forks[i];
    }
  }

  /** The first fork that finds traces decides for the zygote's whole life: it makes the pass, unless
      one of them must not be unmounted; then they are what is left, and no pass is ever made. */
  lemma FirstFindDecides(c: Names, forks: seq<Fork>, i: nat)
    requires FirstFinds(c, forks, i)
    ensures var z, found := Life(c, forks), Found(c, forks, i);
            if exists m <- found :: TakesOverlays(c, m, forks[i].flags.magisk) then z == Zygote(found, false, [])
            else
              var pass := Attempts(found, forks[i].works);
              z == Zygote(Failed(pass), true, [Pass(forks[i], pass)])
  {
    FirstFindStays(c, forks, i);
    forall m: Mount ensures Prohibited(c, m, forks[i].flags.magisk) <==> TakesOverlays(c, m, forks[i].flags.magisk) {
      ProhibitedIs(c, m, forks[i].flags.magisk);
    }
  }

  /** The pass tries each selected mount once, in strictly descending id order. */
  lemma PassOrder(c: Names, p: Pass, pass: seq<Attempt>, e: Fork)
    requires PassOk(c, p) && p == Pass(e, pass) && DistinctKeys(e.mounts, ID)
    ensures forall i, j :: 0 <= i < j < |pass| ==> pass[i].mount.id > pass[j].mount.id
    ensures forall m :: (exists a <- pass :: a.mount == m) <==> m in e.mounts && GivesAway(c, e.mounts, e.flags, m)
    ensures pass != [] && forall a <- pass :: a.ok == e.works(a.mount) && !TakesOverlays(c, a.mount, e.flags.magisk)
    ensures StrictlyDescending(Failed(pass), ID)
    ensures forall m :: m in Failed(pass) <==> m in e.mounts && GivesAway(c, e.mounts, e.flags, m) && !e.works(m)
  {
    FailedAre(pass);
    forall m: Mount ensures Prohibited(c, m, e.flags.magisk) <==> TakesOverlays(c, m, e.flags.magisk) {
      ProhibitedIs(c, m, e.flags.magisk);
    }
    ZygoteTracesAre(c, e.mounts, e.flags);
    AttemptsAre(ZygoteTraces(c, e.mounts, e.flags), e.works, pass);
  }

  /** What a pass leaves: the mounts it could not unmount, in their order. */
  lemma {:induction false} FailedAre(pass: seq<Attempt>)
    ensures forall m :: m in Failed(pass) <==> exists a <- pass :: a.mount == m && !a.ok
    ensures (forall i, j :: 0 <= i < j < |pass| ==> pass[i].mount.id > pass[j].mount.id) ==> StrictlyDescending(Failed(pass), ID)
  {
    if pass != [] {
      var n := |pass| - 1;
      FailedAre(pass[..n]);
      assert pass == pass[..n] + [pass[n]];
      assert forall a :: a in pass <==> a in pass[..n] || a == pass[n];
      var front := Failed(pass[..n]);
      forall i | 0 <= i < |front|
        ensures exists k :: 0 <= k < n && pass[k].mount == front[i]
      {
        assert front[i] in front;
        var a :| a in pass[..n] && a.mount == front[i];
        var k :| 0 <= k < n && pass[k] == a;
      }
    }
  }

  lemma AttemptsAre(traces: seq<Mount>, works: Mount -> bool, pass: seq<Attempt>)
    requires pass == Attempts(traces, works)
    ensures forall m :: (exists a <- pass :: a.mount == m) <==> m in traces
    ensures forall a <- pass :: a.mount in traces && a.ok == works(a.mount)
    ensures |pass| == |traces| && forall i :: 0 <= i < |pass| ==> pass[i].mount == traces[i]
  {
    forall m | m in traces ensures exists a <- pass :: a.mount == m {
      var i :| 0 <= i < |traces| && traces[i] == m;
      assert pass[i] in pass;
    }
  }

  // ---------- what a process asks for ----------

  datatype Namespace = Root | Clean

  /** A process that unshares: whether its mounts, whether it is the system server, what the daemon
      said of it, and whether it is to have its mounts reverted. */
  datatype Process = Process(newNamespace: bool, server: bool, flags: Flags, revert: bool)

  predicate ShouldHide(p: Process) {
    p.revert && !p.flags.manager && !p.flags.grantedRoot
  }

  function Asked(z: Zygote, p: Process): seq<Namespace> {
    if !p.newNamespace || p.server then []
    else if ShouldHide(p) then (if z.unmounted && z.traces == [] then [] else [Clean])
    else if z.unmounted then [Root] else []
  }

  /** Nothing of what the zygote's pass selected is mounted in the zygote. */
  ghost predicate AllUnmounted(z: Zygote) {
    |z.passes| == 1 && z.passes[0].attempts != [] && forall a <- z.passes[0].attempts :: a.ok
  }

  lemma {:induction false} FailedIs(pass: seq<Attempt>)
    ensures Failed(pass) == [] <==> forall a <- pass :: a.ok
  {
    if pass != [] {
      var n := |pass| - 1;
      FailedIs(pass[..n]);
      assert pass == pass[..n] + [pass[n]];
      assert pass[n] in pass;
    }
  }

  /** A process without mounts of its own and the system server ask for nothing. Any other that should
      hide either has all selected traces
      unmounted in the zygote it came from, or asks for the clean namespace, and not both. One that
      should not hide asks for the root namespace exactly if the zygote was unmounted. */
  lemma HiddenOrClean(c: Names, forks: seq<Fork>, p: Process)
    ensures var z := Life(c, forks);
            if !p.newNamespace || p.server then Asked(z, p) == []
            else if p.revert && !p.flags.manager && !p.flags.grantedRoot then (AllUnmounted(z) <==> Asked(z, p) == []) && (!AllUnmounted(z) <==> Asked(z, p) == [Clean])
            else Asked(z, p) == if |z.passes| == 1 then [Root] else []
  {
    var z := Life(c, forks);
    OnePass(c, forks);
    if z.unmounted {
      FailedIs(z.passes[0].attempts);
    }
  }
}
