/**
 Running functions in a stopped process: strings and call frames are laid on its stack, its
 registers are set, and it is let run until it comes to the return address. What the process does
 while it runs is a parameter.
 */
module Injection {
  import opened ArgBlock
  import opened Bits
  import opened Bytes

  datatype Arch = X86_64 | I386 | Arm64 | Arm

  function WordSize(arch: Arch): (w: nat)
    ensures IsWordSize(w)
  {
    if arch == X86_64 || arch == Arm64 then 8 else 4
  }

  /** How many arguments go in registers. */
  function RegisterArgs(arch: Arch): nat {
    match arch
    case X86_64 => 6
    case I386 => 0
    case Arm64 => 8
    case Arm => 4
  }

  /** Whether the return address goes on the stack, not in the link register. */
  predicate PushesReturn(arch: Arch) {
    arch == X86_64 || arch == I386
  }

  /** `ret` is the register results come back in, `args` those arguments go in, `syscall` the
      number of an interrupted system call, `btype` the branch type of the last indirect jump. */
  datatype Regs =
    Regs(sp: nat, ip: nat, lr: nat, ret: nat, args: seq<nat>, thumb: bool, btype: nat, syscall: int)

  /** A remote call: what was asked for, and the process when it is let run. */
  datatype Call = Call(func: nat, args: seq<nat>, ret: nat, regs: Regs, memory: seq<Byte>)

  /** What became of it: whether setting the registers worked, whether the process went away
      instead of stopping, whether its registers could be read, and what they and its memory are. */
  datatype Reply = Reply(setOk: bool, gone: bool, getOk: bool, regs: Regs, memory: seq<Byte>)

  datatype World = World(writable: (nat, nat) -> bool, run: Call -> Reply)

  // ---------- the frame of a call ----------

  function Floor16(x: nat): (r: nat)
    ensures r <= x < r + 16 && r % 16 == 0
  {
    x - x % 16
  }

  /** Clearing the low four bits of an address. */
  lemma StackMaskIsFloor(w: nat, x: nat)
    requires w >= 4 && x < Pow2(w)
    ensures 0xf < Pow2(w) && And(x, Not(w, 0xf)) == Floor16(x)
  {
    MaskIsFloor(w, 4, x);
    Pow2Values();
  }

  function EncodeAll(values: seq<nat>, w: nat): (bytes: seq<Byte>)
    requires IsWordSize(w)
    ensures |bytes| == Slot(w, 0, |values|)
  {
    if values == [] then [] else Encode(values[0], w) + EncodeAll(values[1..], w)
  }

  function StackArgs(arch: Arch, args: seq<nat>): seq<nat> {
    if |args| > RegisterArgs(arch) then args[RegisterArgs(arch)..] else []
  }

  function ReturnBytes(arch: Arch, ret: nat): seq<Byte> {
    if PushesReturn(arch) then Encode(ret, WordSize(arch)) else []
  }

  /** What a call lays below the aligned stack pointer. */
  function Frame(arch: Arch, args: seq<nat>, ret: nat): (bytes: seq<Byte>)
    ensures |bytes| <= 8 * |args| + 8
  {
    ReturnBytes(arch, ret) + EncodeAll(StackArgs(arch, args), WordSize(arch))
  }

  /** Whether what a call lays below `top` can be written. */
  predicate FrameWritable(world: World, arch: Arch, top: nat, args: seq<nat>)
    requires |Frame(arch, args, 0)| <= top
  {
    var n, w := |EncodeAll(StackArgs(arch, args), WordSize(arch))|, WordSize(arch);
    && (|args| > RegisterArgs(arch) ==> world.writable(top - n, n))
    && (PushesReturn(arch) ==> world.writable(top - n - w, w))
  }

  function WithArgs(regs: Regs, args: seq<nat>): Regs {
    regs.(args := seq(|regs.args|, i requires 0 <= i < |regs.args| => if i < |args| then args[i] else regs.args[i]))
  }

  /** The registers the called function starts with. */
  function EntryRegs(arch: Arch, regs: Regs, func: nat, ret: nat, args: seq<nat>): Regs
    requires |Frame(arch, args, ret)| + 15 <= regs.sp
  {
    var placed := WithArgs(regs, args).(sp := Floor16(regs.sp) - |Frame(arch, args, ret)|);
    match arch
    case X86_64 => placed.(ip := func)
    case I386 => placed.(ip := func)
    case Arm64 => placed.(lr := ret, ip := func)
    case Arm => placed.(lr := ret, ip := func - func % 2, thumb := func % 2 == 1)
  }

  function EntryCall(arch: Arch, regs: Regs, memory: seq<Byte>, func: nat, ret: nat, args: seq<nat>): Call
    requires |Frame(arch, args, ret)| + 15 <= regs.sp <= |memory|
  {
    var entry := EntryRegs(arch, regs, func, ret, args);
    Call(func, args, ret, entry, Written(memory, entry.sp, Frame(arch, args, ret)))
  }

  // ---------- what the called function finds ----------

  /** The k-th argument: in a register as long as there are any for arguments, and otherwise a word on
      the stack, behind the return address if that is there. */
  predicate FindsArgument(arch: Arch, c: Call, k: nat, value: nat) {
    var w := WordSize(arch);
    if k < RegisterArgs(arch) then k < |c.regs.args| && c.regs.args[k] == value
    else
      var at := Slot(w, c.regs.sp + (if PushesReturn(arch) then w else 0), k - RegisterArgs(arch));
      at + w <= |c.memory| && WordAt(c.memory, at, w) == value
  }

  predicate FindsReturn(arch: Arch, c: Call, ret: nat) {
    match arch
    case X86_64 => c.regs.sp + 8 <= |c.memory| && WordAt(c.memory, c.regs.sp, 8) == ret
    case I386 => c.regs.sp + 4 <= |c.memory| && WordAt(c.memory, c.regs.sp, 4) == ret
    case _ => c.regs.lr == ret
  }

  /** On arm the lowest bit of an address selects the instruction set and is not part of it. */
  predicate StartsAt(arch: Arch, c: Call, func: nat) {
    match arch
    case Arm => c.regs.ip == func - func % 2 && c.regs.thumb == (func % 2 == 1)
    case _ => c.regs.ip == func
  }

  /** The call was entered as asked for, as far as the values fit a word. */
  ghost predicate Entered(arch: Arch, c: Call, func: nat, ret: nat, args: seq<nat>) {
    var limit := Range(WordSize(arch));
    && c.func == func && c.ret == ret && c.args == args && StartsAt(arch, c, func)
    && (ret < limit ==> FindsReturn(arch, c, ret))
    && forall k: nat :: k < |args| && args[k] < limit ==> FindsArgument(arch, c, k, args[k])
  }

  /** The parts of the registers a call is no occasion to touch. */
  predicate SameMode(a: Regs, b: Regs) {
    a.syscall == b.syscall && a.ret == b.ret && a.btype == b.btype
  }

  /** The call was entered as it says of itself. */
  ghost predicate WellEntered(arch: Arch, c: Call) {
    Entered(arch, c, c.func, c.ret, c.args)
  }

  lemma HeldBehind(head: seq<Byte>, tail: seq<Byte>, at: nat, bytes: seq<Byte>)
    requires Holds(tail, Pinned(at, bytes))
    ensures Holds(head + tail, Pinned(|head| + at, bytes))
  {
    assert (head + tail)[|head| + at..|head| + at + |bytes|] == tail[at..at + |bytes|];
  }

  lemma HeldWritten(memory: seq<Byte>, sp: nat, frame: seq<Byte>, at: nat, bytes: seq<Byte>)
    requires sp + |frame| <= |memory| && Holds(frame, Pinned(at, bytes))
    ensures Holds(Written(memory, sp, frame), Pinned(sp + at, bytes))
  {
    assert Written(memory, sp, frame)[sp + at..sp + at + |bytes|] == frame[at..at + |bytes|];
  }

  lemma LaidWord(memory: seq<Byte>, sp: nat, frame: seq<Byte>, at: nat, w: nat, value: nat)
    requires sp + |frame| <= |memory| && Holds(frame, Pinned(at, Encode(value, w))) && value < Range(w)
    ensures var after := Written(memory, sp, frame); sp + at + w <= |after| && WordAt(after, sp + at, w) == value
  {
    HeldWritten(memory, sp, frame, at, Encode(value, w));
    DecodeEncode(value, w);
  }

  lemma {:induction false} EncodeAllHolds(values: seq<nat>, w: nat, i: nat)
    requires IsWordSize(w) && i < |values|
    ensures Holds(EncodeAll(values, w), Pinned(Slot(w, 0, i), Encode(values[i], w)))
  {
    if i > 0 {
      EncodeAllHolds(values[1..], w, i - 1);
      HeldBehind(Encode(values[0], w), EncodeAll(values[1..], w), Slot(w, 0, i - 1), Encode(values[i], w));
    }
  }

  /** How far above the stack pointer a function finds its k-th argument. */
  function ArgumentOffset(arch: Arch, k: nat): nat
    requires RegisterArgs(arch) <= k
  {
    var w := WordSize(arch);
    Slot(w, if PushesReturn(arch) then w else 0, k - RegisterArgs(arch))
  }

  lemma FrameHolds(arch: Arch, args: seq<nat>, ret: nat, k: nat)
    requires RegisterArgs(arch) <= k < |args|
    ensures Holds(Frame(arch, args, ret), Pinned(ArgumentOffset(arch, k), Encode(args[k], WordSize(arch))))
  {
    var w, head, tail := WordSize(arch), ReturnBytes(arch, ret), EncodeAll(StackArgs(arch, args), WordSize(arch));
    var i := k - RegisterArgs(arch);
    EncodeAllHolds(StackArgs(arch, args), w, i);
    HeldBehind(head, tail, Slot(w, 0, i), Encode(args[k], w));
    assert ArgumentOffset(arch, k) == |head| + Slot(w, 0, i);
  }

  lemma StackArgumentFound(arch: Arch, c: Call, memory: seq<Byte>, frame: seq<Byte>, k: nat)
    requires c.regs.sp + |frame| <= |memory| && c.memory == Written(memory, c.regs.sp, frame)
    requires RegisterArgs(arch) <= k < |c.args| && c.args[k] < Range(WordSize(arch))
    requires Holds(frame, Pinned(ArgumentOffset(arch, k), Encode(c.args[k], WordSize(arch))))
    ensures FindsArgument(arch, c, k, c.args[k])
  {
    LaidWord(memory, c.regs.sp, frame, ArgumentOffset(arch, k), WordSize(arch), c.args[k]);
  }

  lemma ReturnFound(arch: Arch, c: Call, memory: seq<Byte>, frame: seq<Byte>)
    requires frame == Frame(arch, c.args, c.ret) && c.regs.sp + |frame| <= |memory| && PushesReturn(arch)
    requires c.memory == Written(memory, c.regs.sp, frame) && c.ret < Range(WordSize(arch))
    ensures FindsReturn(arch, c, c.ret)
  {
    var w := WordSize(arch);
    assert frame[..w] == Encode(c.ret, w);
    LaidWord(memory, c.regs.sp, frame, 0, w, c.ret);
  }

  /** Whatever a call lays and sets, the function finds its arguments and the way back. */
  lemma EntryCallEntered(arch: Arch, regs: Regs, memory: seq<Byte>, func: nat, ret: nat, args: seq<nat>)
    requires |Frame(arch, args, ret)| + 15 <= regs.sp <= |memory| && |regs.args| == RegisterArgs(arch)
    ensures Entered(arch, EntryCall(arch, regs, memory, func, ret, args), func, ret, args)
  {
    var c := EntryCall(arch, regs, memory, func, ret, args);
    if ret < Range(WordSize(arch)) && PushesReturn(arch) {
      ReturnFound(arch, c, memory, Frame(arch, args, ret));
    }
    forall k: nat | k < |args| && args[k] < Range(WordSize(arch))
      ensures FindsArgument(arch, c, k, args[k])
    {
      if k >= RegisterArgs(arch) {
        FrameHolds(arch, args, ret, k);
        StackArgumentFound(arch, c, memory, Frame(arch, args, ret), k);
      }
    }
  }

  // ---------- what is assumed of the process ----------

  /** The lowest address the stack pointer of a stopped process has. */
  const MARGIN: nat := 64

  predicate Returned(c: Call, r: Reply) {
    r.setOk && !r.gone && r.getOk && r.regs.ip == c.ret
  }

  /** The calling convention: a function that returns leaves its caller's frame alone, down to the
      arguments and the return address it was given, and pops the return address only. */
  ghost predicate RespectsCaller(arch: Arch, c: Call, r: Reply) {
    var top := c.regs.sp + |Frame(arch, c.args, c.ret)|;
    && r.regs.sp == c.regs.sp + |ReturnBytes(arch, c.ret)|
    && forall i :: top <= i < |c.memory| && i < |r.memory| ==> r.memory[i] == c.memory[i]
  }

  ghost predicate Sane(arch: Arch, c: Call, r: Reply) {
    && |r.memory| == |c.memory| && |r.regs.args| == RegisterArgs(arch)
    && (MARGIN <= |c.memory| ==> MARGIN <= r.regs.sp <= |r.memory|)
    && (Returned(c, r) ==> RespectsCaller(arch, c, r))
  }

  ghost predicate Behaves(arch: Arch, world: World) {
    forall c :: Sane(arch, c, world.run(c))
  }

  // ---------- what was put on the stack ----------

  /** A block of memory that must not change. */
  datatype Pinned = Pinned(at: nat, bytes: seq<Byte>)

  predicate Holds(memory: seq<Byte>, b: Pinned) {
    b.at + |b.bytes| <= |memory| && memory[b.at..b.at + |b.bytes|] == b.bytes
  }

  /** Every block lies at or above the stack pointer and holds what was put there. */
  predicate Intact(memory: seq<Byte>, sp: nat, blocks: seq<Pinned>) {
    forall b <- blocks :: sp <= b.at && Holds(memory, b)
  }

  lemma WriteBelow(memory: seq<Byte>, sp: nat, blocks: seq<Pinned>, at: nat, bytes: seq<Byte>)
    requires Intact(memory, sp, blocks) && at + |bytes| <= sp && at + |bytes| <= |memory|
    ensures Intact(Written(memory, at, bytes), at, blocks)
  {
    forall b | b in blocks ensures Holds(Written(memory, at, bytes), b) {
      WrittenElsewhere(memory, at, bytes, b.at, b.at + |b.bytes|);
    }
  }

  lemma SameAbove(memory: seq<Byte>, after: seq<Byte>, top: nat, sp: nat, blocks: seq<Pinned>)
    requires Intact(memory, top, blocks) && sp <= top && |memory| == |after|
    requires forall i :: top <= i < |memory| ==> after[i] == memory[i]
    ensures Intact(after, sp, blocks)
  {
    forall b | b in blocks ensures Holds(after, b) {
      assert after[b.at..b.at + |b.bytes|] == memory[b.at..b.at + |b.bytes|];
    }
  }

  /** Neither laying the frame nor a function that returns touches a block. */
  lemma CallKeepsBlocks(arch: Arch, regs: Regs, memory: seq<Byte>, func: nat, ret: nat, args: seq<nat>,
                        blocks: seq<Pinned>, r: Reply)
    requires |Frame(arch, args, ret)| + 15 <= regs.sp <= |memory| && Intact(memory, regs.sp, blocks)
    requires var c := EntryCall(arch, regs, memory, func, ret, args); Sane(arch, c, r) && Returned(c, r)
    ensures Intact(EntryCall(arch, regs, memory, func, ret, args).memory, 0, blocks)
    ensures Intact(r.memory, r.regs.sp, blocks) && r.regs.sp + |Frame(arch, args, ret)| + 15 >= regs.sp
  {
    var c := EntryCall(arch, regs, memory, func, ret, args);
    var frame := Frame(arch, args, ret);
    WriteBelow(memory, regs.sp, blocks, c.regs.sp, frame);
    var top := c.regs.sp + |frame|;
    forall b | b in blocks ensures top <= b.at && Holds(c.memory, b) {
    }
    SameAbove(c.memory, r.memory, top, r.regs.sp, blocks);
  }

  // ---------- an injection ----------

  /** What was looked up: addresses of functions (0 if not found), the return address, the range of
      the mapped library, and the flag value for immediate binding. */
  datatype Lookup =
    Lookup(dlopen: nat, dlerror: nat, dlsym: nat, strlen: nat, returnAddr: nat, start: nat, size: nat, rtldNow: nat,
           tmpPath: seq<Byte>)

  const ENTRY: seq<Byte> := [101, 110, 116, 114, 121]

  /** The string is there when the function is entered and still when it returns, if its address
      is not 0, which stands for a string that could not be written. */
  predicate StringThere(world: World, c: Call, at: nat, text: seq<Byte>) {
    at != 0 ==> Holds(c.memory, Pinned(at, text + [0])) && Holds(world.run(c).memory, Pinned(at, text + [0]))
  }

  /** The function was called with that string among those arguments, and returned. */
  predicate PassesString(world: World, c: Call, func: nat, ret: nat, left: seq<nat>, text: seq<Byte>, right: seq<nat>) {
    && c.func == func && c.ret == ret && Returned(c, world.run(c))
    && |c.args| == |left| + 1 + |right| && c.args == left + [c.args[|left|]] + right
    && StringThere(world, c, c.args[|left|], text)
  }

  /** The library is loaded and its entry function looked up in it; both calls returned. */
  ghost predicate LoadCalls(world: World, lib: seq<Byte>, look: Lookup, load: Call, lookup: Call) {
    var handle := world.run(load).regs.ret;
    && handle != 0 && world.run(lookup).regs.ret != 0
    && PassesString(world, load, look.dlopen, look.returnAddr, [], lib, [look.rtldNow])
    && PassesString(world, lookup, look.dlsym, look.returnAddr, [handle], ENTRY, [])
  }

  /** And the entry function is called, and returned. */
  ghost predicate InjectionCalls(world: World, lib: seq<Byte>, mode: nat, look: Lookup, calls: seq<Call>) {
    && |calls| == 3 && LoadCalls(world, lib, look, calls[0], calls[1])
    && PassesString(world, calls[2], world.run(calls[1]).regs.ret, look.returnAddr, [look.start, look.size], look.tmpPath, [mode])
  }

  /** Nothing goes wrong: what was looked up was found, all memory can be written, and every function
      called with room on its stack returns, with something. */
  ghost predicate Smooth(arch: Arch, world: World, length: nat, look: Lookup) {
    && look.dlopen != 0 && look.dlsym != 0
    && (forall a: nat, n: nat :: a + n <= length ==> world.writable(a, n))
    && (forall c: Call :: MARGIN <= c.regs.sp && c.regs.sp + |ReturnBytes(arch, c.ret)| <= |c.memory| ==>
                      Returned(c, world.run(c)) && world.run(c).regs.ret != 0)
  }

  /** A world in which every function returns 1 at once. */
  function Obliging(arch: Arch, length: nat): World {
    World((a: nat, n: nat) => a + n <= length,
          (c: Call) =>
            if MARGIN <= c.regs.sp && c.regs.sp + |ReturnBytes(arch, c.ret)| <= |c.memory| then
              Reply(true, false, true, ReturnRegs(arch, c, c.regs.sp + |ReturnBytes(arch, c.ret)|), c.memory)
            else Reply(true, true, false, ReturnRegs(arch, c, |c.memory|), c.memory))
  }

  function ReturnRegs(arch: Arch, c: Call, sp: nat): Regs {
    Regs(sp, c.ret, 0, 1, seq(RegisterArgs(arch), _ => 0), false, 0, 0)
  }

  lemma ObligingIsSmooth(arch: Arch, length: nat, look: Lookup)
    requires look.dlopen != 0 && look.dlsym != 0
    ensures Behaves(arch, Obliging(arch, length)) && Smooth(arch, Obliging(arch, length), length, look)
  {
    forall c: Call ensures Sane(arch, c, Obliging(arch, length).run(c)) {
    }
  }

  /** Then a call with room on the stack works. */
  lemma SmoothCall(arch: Arch, world: World, look: Lookup, regs: Regs, memory: seq<Byte>, func: nat, ret: nat, args: seq<nat>)
    requires Smooth(arch, world, |memory|, look) && 8 * |args| + MARGIN + 23 <= regs.sp <= |memory|
    ensures FrameWritable(world, arch, Floor16(regs.sp), args)
    ensures var c := EntryCall(arch, regs, memory, func, ret, args); Returned(c, world.run(c)) && world.run(c).regs.ret != 0
  {
    var top, n, w := Floor16(regs.sp), |EncodeAll(StackArgs(arch, args), WordSize(arch))|, WordSize(arch);
    assert world.writable(top - n, n);
    if PushesReturn(arch) {
      assert world.writable(top - n - w, w);
    }
  }

  /** The library was loaded and its entry function called, and `hooked` is what that reported. */
  ghost predicate Injected(arch: Arch, world: World, lib: seq<Byte>, mode: nat, look: Lookup, calls: seq<Call>, hooked: bool) {
    && InjectionCalls(world, lib, mode, look, calls) && (forall c <- calls :: WellEntered(arch, c))
    && hooked == (world.run(calls[2]).regs.ret % 0x1_0000_0000 != 0)
  }

  lemma InjectionMade(arch: Arch, world: World, lib: seq<Byte>, mode: nat, look: Lookup, load: Call, lookup: Call, call: Call)
    requires LoadCalls(world, lib, look, load, lookup)
    requires PassesString(world, call, world.run(lookup).regs.ret, look.returnAddr, [look.start, look.size], look.tmpPath, [mode])
    requires WellEntered(arch, load) && WellEntered(arch, lookup) && WellEntered(arch, call)
    ensures InjectionCalls(world, lib, mode, look, [load, lookup, call])
    ensures forall c <- [load, lookup, call] :: WellEntered(arch, c)
  {
  }

  // ---------- before the first instruction ----------

  const SIGSEGV: nat := 11
  const SIGSTOP: nat := 19

  /** What letting the process run comes to. */
  datatype Event = ContFailed | Gone | Stopped(signal: nat, regs: Regs, memory: seq<Byte>)

  /** The outcomes of an injection's own system calls. */
  datatype Script =
    Script(gotRegs: bool, hijackOk: bool, events: seq<Event>, gotTrapRegs: bool, restoreOk: bool, setOk: bool)

  predicate Plausible(arch: Arch, length: nat, e: Event)
    requires e.Stopped?
  {
    |e.memory| == length && |e.regs.args| == RegisterArgs(arch) && e.regs.sp <= length
  }

  /** The first event that is not a stray SIGSTOP; the process just runs on if there is none. */
  function TrapIn(events: seq<Event>): (e: Event)
    ensures e.Gone? || e in events
  {
    if events == [] then Gone
    else if events[0].Stopped? && events[0].signal == SIGSTOP then TrapIn(events[1..])
    else events[0]
  }

  /** The first n events are stray stops. */
  predicate StrayUpTo(events: seq<Event>, n: nat) {
    n <= |events| && forall i :: 0 <= i < n ==> events[i].Stopped? && events[i].signal == 19
  }

  /** Only stray stops are in front of it, and it is none. */
  lemma {:induction false} TrapInIs(events: seq<Event>) returns (n: nat)
    ensures StrayUpTo(events, n) && TrapIn(events) == if n < |events| then events[n] else Gone
    ensures TrapIn(events).Stopped? ==> TrapIn(events).signal != 19
  {
    n := 0;
    if events != [] && events[0].Stopped? && events[0].signal == SIGSTOP {
      n := TrapInIs(events[1..]);
      n := n + 1;
      assert forall i :: 1 <= i < n ==> events[i] == events[1..][i - 1];
    }
  }

  /** The address execution is sent to: invalid, with the entry address's lowest bit. */
  function BreakAddress(arch: Arch, entry: nat): nat {
    (if WordSize(arch) == 8 then 0x1_0000_0000_0000_0000 else 0x1_0000_0000) - 0x05ec_1d00 + entry % 2
  }

  /** It is a word, selects the instruction set the entry address selects, and is close to the end of
      the address space. */
  lemma BreakAddressIs(arch: Arch, entry: nat)
    ensures var limit := if arch == X86_64 || arch == Arm64 then 0x1_0000_0000_0000_0000 else 0x1_0000_0000;
            limit - 0x0600_0000 < BreakAddress(arch, entry) < limit && BreakAddress(arch, entry) % 2 == entry % 2
  {
  }

  /** Where the program's entry address is kept. */
  function EntrySlot(w: nat, sp: nat, argc: nat, envc: nat, aux: seq<Aux>): nat {
    Slot(w, Auxv(w, sp, argc, envc), 2 * FirstEntry(aux)) + w
  }

  /** The word there once it was hijacked. */
  function HijackedWord(arch: Arch, memory: seq<Byte>, script: Script, at: nat, entry: nat): seq<Byte>
    requires at + WordSize(arch) <= |memory|
  {
    WordAfter(arch, script.hijackOk, BreakAddress(arch, entry), memory[at..at + WordSize(arch)])
  }

  /** The word there in the end. */
  function FinalWord(arch: Arch, memory: seq<Byte>, script: Script, at: nat, entry: nat): seq<Byte>
    requires at + WordSize(arch) <= |memory|
  {
    WordAfter(arch, script.restoreOk, entry, HijackedWord(arch, memory, script, at, entry))
  }

  /** While it runs up to a stop, the process leaves that word alone, and then the word lies on its
      live stack, with `room` below. */
  predicate KeepsWord(arch: Arch, memory: seq<Byte>, script: Script, e: Event, at: nat, entry: nat, room: nat)
    requires at + WordSize(arch) <= |memory|
  {
    e.Stopped? ==>
      && Plausible(arch, |memory|, e) && room <= e.regs.sp <= at
      && e.memory[at..at + WordSize(arch)] == HijackedWord(arch, memory, script, at, entry)
  }

  ghost predicate KeepWord(arch: Arch, memory: seq<Byte>, script: Script, at: nat, entry: nat, room: nat)
    requires at + WordSize(arch) <= |memory|
  {
    forall e <- script.events :: KeepsWord(arch, memory, script, e, at, entry, room)
  }

  /** The process was caught at the false entry address; it has the registers it had then, but goes
      on at the true one, and `word` is where the entry address is kept. */
  predicate InjectedAt(arch: Arch, script: Script, at: nat, entry: nat, regs: Regs, word: seq<Byte>, memory: seq<Byte>) {
    var trap := TrapIn(script.events);
    && trap.Stopped? && trap.signal == SIGSEGV && trap.regs.ip / 2 == BreakAddress(arch, entry) / 2
    && regs == trap.regs.(ip := entry)
    && Holds(memory, Pinned(at, word))
  }

  /** The process comes to the false entry address, and its registers can be read there and set. */
  predicate Trapped(arch: Arch, script: Script, entry: nat) {
    var trap := TrapIn(script.events);
    && trap.Stopped? && trap.signal == SIGSEGV && trap.regs.ip / 2 == BreakAddress(arch, entry) / 2
    && script.gotTrapRegs && script.setOk
  }

  /** The word comes back to what it was exactly if the write that restores it worked, or the one
      that hijacked it did not. */
  lemma WordRestoredExactly(arch: Arch, memory: seq<Byte>, script: Script, at: nat, entry: nat)
    requires at + WordSize(arch) <= |memory| && WordAt(memory, at, WordSize(arch)) == entry
    requires Encode(BreakAddress(arch, entry), WordSize(arch)) != Encode(entry, WordSize(arch))
    ensures FinalWord(arch, memory, script, at, entry) == memory[at..at + WordSize(arch)]
       <==> script.restoreOk || !script.hijackOk
  {
    EncodeDecode(memory[at..at + WordSize(arch)]);
  }

  function WordAfter(arch: Arch, written: bool, value: nat, before: seq<Byte>): seq<Byte> {
    if written then Encode(value, WordSize(arch)) else before
  }

  lemma Kept(before: seq<Byte>, after: seq<Byte>, sp: nat, at: nat, w: nat)
    requires sp <= at && at + w <= |before| == |after|
    requires after[sp..sp + |before[sp..]|] == before[sp..]
    ensures after[at..at + w] == before[at..at + w]
  {
    forall i | at <= i < at + w ensures after[i] == before[i] {
      assert after[sp..sp + |before[sp..]|][i - sp] == before[sp..][i - sp];
    }
  }

  // ---------- alignment ----------

  /** What the function may rely on at its first instruction (section 3.2.2 of the System V AMD64
      ABI for x86_64; i386 likewise; a stack pointer of 16 bytes on arm64, of 8 on arm). */
  predicate AbiAligned(arch: Arch, sp: nat) {
    match arch
    case X86_64 => (sp + 8) % 16 == 0
    case I386 => (sp + 4) % 16 == 0
    case Arm64 => sp % 16 == 0
    case Arm => sp % 8 == 0
  }

  /** The number of arguments for which the frame leaves the stack aligned. */
  predicate AlignsFor(arch: Arch, n: nat) {
    match arch
    case X86_64 => n <= 6 || n % 2 == 0
    case I386 => n % 4 == 0
    case Arm64 => n <= 8 || n % 2 == 0
    case Arm => n <= 4 || n % 2 == 0
  }

  lemma EightsIn16(q: int, m: int)
    ensures (16 * q - 8 * m) % 16 == 0 <==> m % 2 == 0
  {
    var h := q - m / 2 - m % 2;
    assert 16 * q - 8 * m == 16 * h + 8 * (m % 2);
  }

  lemma FoursIn8(q: int, m: int)
    ensures (16 * q - 4 * m) % 8 == 0 <==> m % 2 == 0
  {
    var h := 2 * q - m / 2 - m % 2;
    assert 16 * q - 4 * m == 8 * h + 4 * (m % 2);
  }

  lemma FoursIn16(q: int, m: int)
    ensures (16 * q - 4 * m) % 16 == 0 <==> m % 4 == 0
  {
    var h, r := q - m / 4, m % 4;
    assert 16 * q - 4 * m == 16 * h - 4 * r;
    if r > 0 {
      assert 16 * h - 4 * r == 16 * (h - 1) + (16 - 4 * r);
    }
  }

  /** Of the three calls of an injection, the first two are misaligned on i386, and only there. */
  lemma InjectionCallsAligned(arch: Arch, regs: Regs, world: World, lib: seq<Byte>, mode: nat, look: Lookup, calls: seq<Call>, i: nat)
    requires InjectionCalls(world, lib, mode, look, calls) && i < 3
    requires |Frame(arch, calls[i].args, calls[i].ret)| + 15 <= regs.sp
    ensures AbiAligned(arch, EntryRegs(arch, regs, calls[i].func, calls[i].ret, calls[i].args).sp) <==> arch != I386 || i == 2
  {
    EntryAlignedExactly(arch, regs, calls[i].func, calls[i].ret, calls[i].args);
  }

  /** The calls made when the library could not be loaded: dlerror, and strlen of what it gave. */
  ghost predicate FailureCalls(look: Lookup, calls: seq<Call>) {
    && |calls| <= 2
    && (|calls| > 0 ==> calls[0].func == look.dlerror && calls[0].args == [])
    && (|calls| > 1 ==> calls[1].func == look.strlen && |calls[1].args| == 1)
  }

  /** Of these the second is misaligned on i386, and only there. */
  lemma FailureCallsAligned(arch: Arch, regs: Regs, look: Lookup, calls: seq<Call>, i: nat)
    requires FailureCalls(look, calls) && i < |calls|
    requires |Frame(arch, calls[i].args, calls[i].ret)| + 15 <= regs.sp
    ensures AbiAligned(arch, EntryRegs(arch, regs, calls[i].func, calls[i].ret, calls[i].args).sp) <==> arch != I386 || i == 0
  {
    EntryAlignedExactly(arch, regs, calls[i].func, calls[i].ret, calls[i].args);
  }

  /** The same for the number of arguments that go on the stack. */
  predicate StackAlignsFor(arch: Arch, m: nat) {
    if arch == I386 then m % 4 == 0 else m % 2 == 0
  }

  lemma AlignsForStack(arch: Arch, n: nat, m: nat)
    requires m == if n > RegisterArgs(arch) then n - RegisterArgs(arch) else 0
    ensures AlignsFor(arch, n) <==> StackAlignsFor(arch, m)
  {
  }

  lemma AlignedFor(arch: Arch, m: nat, q: nat, sp: nat)
    requires sp == 16 * q - (if PushesReturn(arch) then WordSize(arch) else 0) - Slot(WordSize(arch), 0, m)
    ensures AbiAligned(arch, sp) <==> StackAlignsFor(arch, m)
  {
    match arch
    case X86_64 => EightsIn16(q, m); assert sp + 8 == 16 * q - 8 * m;
    case I386 => FoursIn16(q, m); assert sp + 4 == 16 * q - 4 * m;
    case Arm64 => EightsIn16(q, m); assert sp == 16 * q - 8 * m;
    case Arm => FoursIn8(q, m); assert sp == 16 * q - 4 * m;
  }

  lemma EntryAlignedExactly(arch: Arch, regs: Regs, func: nat, ret: nat, args: seq<nat>)
    requires |Frame(arch, args, ret)| + 15 <= regs.sp
    ensures AbiAligned(arch, EntryRegs(arch, regs, func, ret, args).sp) <==> AlignsFor(arch, |args|)
  {
    var n, q := |StackArgs(arch, args)|, Floor16(regs.sp) / 16;
    assert |EncodeAll(StackArgs(arch, args), WordSize(arch))| == Slot(WordSize(arch), 0, n);
    AlignsForStack(arch, |args|, n);
    AlignedFor(arch, n, q, Floor16(regs.sp) - |Frame(arch, args, ret)|);
  }

  // ---------- the operations ----------

  class Tracee {
    const arch: Arch
    const mem: array<Byte>
    var regs: Regs
    /** The stack as it was, and the strings pushed below it since. */
    ghost var blocks: seq<Pinned>

    constructor (arch: Arch, mem: array<Byte>, regs: Regs)
      ensures this.arch == arch && this.mem == mem && this.regs == regs && blocks == []
    {
      this.arch, this.mem, this.regs, this.blocks := arch, mem, regs, [];
    }

    ghost predicate Valid()
      reads this
    {
      && MARGIN <= mem.Length < Pow2(8 * WordSize(arch))
      && regs.sp <= mem.Length && |regs.args| == RegisterArgs(arch)
    }

    ghost predicate BlocksIntact()
      reads this, mem
    {
      Intact(mem[..], regs.sp, blocks)
    }

    /** Memory is only writable where there is memory. */
    ghost predicate Fits(world: World)
      reads this
    {
      && Behaves(arch, world)
      && forall a: nat, n: nat :: world.writable(a, n) ==> a + n <= mem.Length
    }

    method AlignStack(preserve: nat)
      requires Valid() && preserve <= regs.sp
      modifies this`regs
      ensures Valid() && regs == old(regs).(sp := Floor16(old(regs.sp) - preserve))
    {
      StackMaskIsFloor(8 * WordSize(arch), regs.sp - preserve);
      regs := regs.(sp := And(regs.sp - preserve, Not(8 * WordSize(arch), 0xf)));
    }

    /** 0 when the string could not be written; the stack pointer moves all the same. */
    method PushString(world: World, text: seq<Byte>) returns (at: nat)
      requires Valid() && Fits(world) && BlocksIntact() && |text| + 16 < regs.sp
      modifies this`regs, this`blocks, mem
      ensures Valid() && BlocksIntact()
      ensures regs == old(regs).(sp := Floor16(old(regs.sp) - (|text| + 1)))
      ensures at == if world.writable(regs.sp, |text| + 1) then regs.sp else 0
      ensures blocks == old(blocks) + if at != 0 then [Pinned(at, text + [0])] else []
      ensures regs.sp + |text| + 16 >= old(regs.sp)
    {
      var len := |text| + 1;
      ghost var was, before := regs.sp, mem[..];
      regs := regs.(sp := regs.sp - len);
      AlignStack(0);
      assert regs.sp > 0;
      if !world.writable(regs.sp, len) {
        assert forall b <- blocks :: b in old(blocks);
        return 0;
      }
      CopyBytes(mem, regs.sp, text + [0]);
      WriteBelow(before, was, blocks, regs.sp, text + [0]);
      WrittenAt(before, regs.sp, text + [0]);
      blocks := blocks + [Pinned(regs.sp, text + [0])];
      at := regs.sp;
    }

    method PushBlock(world: World, bytes: seq<Byte>) returns (ok: bool)
      requires Valid() && Fits(world) && |bytes| <= regs.sp
      modifies this`regs, mem
      ensures Valid() && regs == old(regs).(sp := old(regs.sp) - |bytes|)
      ensures ok == world.writable(regs.sp, |bytes|)
      ensures mem[..] == if ok then Written(old(mem[..]), regs.sp, bytes) else old(mem[..])
    {
      regs := regs.(sp := regs.sp - |bytes|);
      ok := world.writable(regs.sp, |bytes|);
      if ok {
        CopyBytes(mem, regs.sp, bytes);
      }
    }

    /** The arguments that do not fit in registers. */
    method PushStackArgs(world: World, args: seq<nat>, ghost bytes: seq<Byte>) returns (ok: bool)
      requires Valid() && Fits(world) && bytes == EncodeAll(StackArgs(arch, args), WordSize(arch)) && |bytes| <= regs.sp
      modifies this`regs, mem
      ensures Valid() && regs == old(regs).(sp := old(regs.sp) - |bytes|)
      ensures ok <==> (|args| > RegisterArgs(arch) ==> world.writable(regs.sp, |bytes|))
      ensures ok ==> mem[..] == Written(old(mem[..]), regs.sp, bytes)
    {
      ok := true;
      if |args| > RegisterArgs(arch) {
        ok := PushBlock(world, EncodeAll(StackArgs(arch, args), WordSize(arch)));
      } else {
        WrittenNothing(mem[..], regs.sp);
      }
    }

    method PushReturnAddress(world: World, ret: nat, ghost bytes: seq<Byte>) returns (ok: bool)
      requires Valid() && Fits(world) && bytes == ReturnBytes(arch, ret) && |bytes| <= regs.sp
      modifies this`regs, mem
      ensures Valid() && regs == old(regs).(sp := old(regs.sp) - |bytes|)
      ensures ok <==> (PushesReturn(arch) ==> world.writable(regs.sp, |bytes|))
      ensures ok ==> mem[..] == Written(old(mem[..]), regs.sp, bytes)
    {
      ok := true;
      if PushesReturn(arch) {
        ok := PushBlock(world, Encode(ret, WordSize(arch)));
      } else {
        WrittenNothing(mem[..], regs.sp);
      }
    }

    /** The arguments that do not fit in registers, and the return address. */
    method PushFrame(world: World, ret: nat, args: seq<nat>, ghost frame: seq<Byte>) returns (ok: bool)
      requires Valid() && Fits(world) && frame == Frame(arch, args, ret) && |frame| <= regs.sp
      modifies this`regs, mem
      ensures Valid() && regs == old(regs).(sp := regs.sp)
      ensures old(regs.sp) - |frame| <= regs.sp <= old(regs.sp)
      ensures ok <==> FrameWritable(world, arch, old(regs.sp), args)
      ensures ok ==> regs.sp == old(regs.sp) - |frame| && mem[..] == Written(old(mem[..]), regs.sp, frame)
    {
      ghost var bytes, retBytes := EncodeAll(StackArgs(arch, args), WordSize(arch)), ReturnBytes(arch, ret);
      assert frame == retBytes + bytes;
      ok := PushStackArgs(world, args, bytes);
      if ok {
        ok := PushReturnAddress(world, ret, retBytes);
      }
      if ok {
        WrittenBelow(old(mem[..]), regs.sp, retBytes, bytes);
      }
    }

    /** The process ran: its memory and, if they can be read, its registers are what it left. */
    method Resume(reply: Reply)
      requires |reply.memory| == mem.Length && |reply.regs.args| == RegisterArgs(arch) && reply.regs.sp <= mem.Length
      requires Valid()
      modifies this`regs, mem
      ensures Valid() && mem[..] == reply.memory && regs == if reply.getOk then reply.regs else old(regs)
    {
      forall i | 0 <= i < mem.Length {
        mem[i] := reply.memory[i];
      }
      if reply.getOk {
        regs := reply.regs;
      }
    }

    /** The frame is laid and the registers set for the call. */
    method EnterCall(world: World, func: nat, ret: nat, args: seq<nat>) returns (laid: bool, ghost call: Call)
      requires Valid() && Fits(world) && 8 * |args| + 23 <= regs.sp
      modifies this`regs, mem
      ensures Valid() && call == EntryCall(arch, old(regs), old(mem[..]), func, ret, args)
      ensures laid <==> FrameWritable(world, arch, Floor16(old(regs.sp)), args)
      ensures laid ==> regs == call.regs && mem[..] == call.memory
      ensures regs.sp + 8 * |args| + 23 >= old(regs.sp)
    {
      ghost var was, before, frame := regs, mem[..], Frame(arch, args, ret);
      call := EntryCall(arch, regs, before, func, ret, args);
      AlignStack(0);
      regs := WithArgs(regs, args);
      laid := PushFrame(world, ret, args, frame);
      if !laid {
        return;
      }
      if !PushesReturn(arch) {
        regs := regs.(lr := ret);
      }
      regs := regs.(ip := func);
      if arch == Arm {
        regs := regs.(ip := func - func % 2, thumb := func % 2 == 1);
      }
      assert regs == call.regs;
    }

    /** `gone` says that the process did not stop again, in which case the injector exits. */
    method RemoteCall(world: World, func: nat, ret: nat, args: seq<nat>)
      returns (result: nat, ok: bool, gone: bool, ghost call: Call)
      requires Valid() && Fits(world) && BlocksIntact() && 8 * |args| + 23 <= regs.sp
      modifies this`regs, mem
      ensures Valid() && call == EntryCall(arch, old(regs), old(mem[..]), func, ret, args)
      ensures Entered(arch, call, func, ret, args)
      ensures ok <==> FrameWritable(world, arch, Floor16(old(regs.sp)), args) && Returned(call, world.run(call))
      ensures ok ==> !gone && mem[..] == world.run(call).memory && regs == world.run(call).regs && result == regs.ret
      ensures ok ==> BlocksIntact() && Intact(call.memory, 0, blocks) && regs.sp + 8 * |args| + 23 >= old(regs.sp)
      ensures !ok ==> result == 0
      ensures regs.sp + 8 * |args| + 23 >= old(regs.sp) || regs.sp >= MARGIN
    {
      ghost var was, before := regs, mem[..];
      result, ok, gone := 0, false, false;
      var laid;
      laid, call := EnterCall(world, func, ret, args);
      EntryCallEntered(arch, was, before, func, ret, args);
      if !laid {
        return;
      }
      var reply := world.run(Call(func, args, ret, regs, mem[..]));
      assert Sane(arch, call, reply);
      if !reply.setOk {
        return;
      }
      if reply.gone {
        gone := true;
        return;
      }
      Resume(reply);
      if !reply.getOk {
        return;
      }
      if regs.ip == ret {
        CallKeepsBlocks(arch, was, before, func, ret, args, blocks, reply);
        result, ok := regs.ret, true;
      }
    }

    /** Why dlopen failed, for the log; the calls have no other use. */
    method ReportDlError(world: World, look: Lookup) returns (gone: bool, ghost calls: seq<Call>)
      requires Valid() && Fits(world) && MARGIN <= regs.sp
      modifies this`regs, this`blocks, mem
      ensures Valid() && FailureCalls(look, calls)
    {
      blocks := [];
      gone, calls := false, [];
      if look.dlerror == 0 {
        return;
      }
      var text, ok;
      ghost var call;
      text, ok, gone, call := RemoteCall(world, look.dlerror, look.returnAddr, []);
      calls := [call];
      if gone || text == 0 || look.strlen == 0 {
        return;
      }
      var length;
      length, ok, gone, call := RemoteCall(world, look.strlen, look.returnAddr, [text]);
      calls := calls + [call];
    }

    /** A string is pushed and passed between other arguments. */
    method CallWithString(world: World, func: nat, ret: nat, left: seq<nat>, text: seq<Byte>, right: seq<nat>,
                          ghost stack: Pinned, ghost look: Lookup)
      returns (result: nat, ok: bool, gone: bool, ghost call: Call)
      requires Valid() && Fits(world) && BlocksIntact() && stack in blocks
      requires |left| + |right| <= 3 && |text| + 136 <= regs.sp
      modifies this`regs, this`blocks, mem
      ensures Valid() && (!ok ==> result == 0)
      ensures regs.sp + |text| + 128 >= old(regs.sp) || regs.sp >= MARGIN
      ensures ok ==> !gone && result == world.run(call).regs.ret && PassesString(world, call, func, ret, left, text, right)
      ensures ok ==> BlocksIntact() && stack in blocks && regs.sp + |text| + 128 >= old(regs.sp)
      ensures Smooth(arch, world, mem.Length, look) ==> ok && result != 0
      ensures ok ==> WellEntered(arch, call) && SameMode(call.regs, old(regs))
    {
      var at := PushString(world, text);
      ghost var passed := blocks;
      if Smooth(arch, world, mem.Length, look) {
        SmoothCall(arch, world, look, regs, mem[..], func, ret, left + [at] + right);
      }
      result, ok, gone, call := RemoteCall(world, func, ret, left + [at] + right);
      if ok && at != 0 {
        assert Pinned(at, text + [0]) in passed;
      }
    }

    /** Loads the library and looks up its entry function; 0 if either fails. */
    method LoadLibrary(world: World, lib: seq<Byte>, look: Lookup, ghost stack: Pinned)
      returns (entry: nat, gone: bool, ghost load: Call, ghost lookup: Call)
      requires Valid() && Fits(world) && BlocksIntact() && stack in blocks && |lib| + 269 <= regs.sp
      modifies this`regs, this`blocks, mem
      ensures Valid()
      ensures entry != 0 ==> !gone && LoadCalls(world, lib, look, load, lookup) && entry == world.run(lookup).regs.ret
      ensures Smooth(arch, world, mem.Length, look) ==> entry != 0
      ensures entry != 0 ==> WellEntered(arch, load) && WellEntered(arch, lookup) && SameMode(load.regs, old(regs))
      ensures entry != 0 ==> BlocksIntact() && stack in blocks && regs.sp + |lib| + 261 >= old(regs.sp)
    {
      var handle, ok;
      entry, gone := 0, false;
      load := Call(0, [], 0, regs, []);
      lookup := load;
      if look.dlopen == 0 {
        return;
      }
      handle, ok, gone, load := CallWithString(world, look.dlopen, look.returnAddr, [], lib, [look.rtldNow], stack, look);
      if gone {
        return;
      }
      if handle == 0 {
        ghost var calls;
        gone, calls := ReportDlError(world, look);
        return;
      }
      if look.dlsym == 0 {
        return;
      }
      entry, ok, gone, lookup := CallWithString(world, look.dlsym, look.returnAddr, [handle], ENTRY, [], stack, look);
    }

    /** Loads the library and calls its entry function. `hooked` is what entry reports. */
    method ExecuteRemoteInjection(world: World, lib: seq<Byte>, mode: nat, look: Lookup)
      returns (result: bool, gone: bool, hooked: bool, ghost calls: seq<Call>)
      requires Valid() && Fits(world) && |lib| + |look.tmpPath| + 512 <= regs.sp
      modifies this`regs, this`blocks, mem
      ensures Valid()
      ensures Smooth(arch, world, mem.Length, look) ==> result
      ensures result ==> !gone && Injected(arch, world, lib, mode, look, calls, hooked)
      ensures result ==> SameMode(calls[0].regs, if arch == Arm64 then old(regs).(btype := 0) else old(regs))
      ensures result ==> Holds(mem[..], Pinned(old(regs.sp), old(mem[regs.sp..])))
    {
      result, gone, hooked, calls := false, false, false, [];
      ghost var stack := Pinned(regs.sp, mem[regs.sp..]);
      blocks := [stack];
      if arch == Arm64 {
        regs := regs.(btype := 0);
      }
      assert BlocksIntact();
      var entry;
      ghost var load, lookup, call;
      entry, gone, load, lookup := LoadLibrary(world, lib, look, stack);
      if gone || entry == 0 {
        return;
      }
      var reported;
      reported, result, gone, call :=
        CallWithString(world, entry, look.returnAddr, [look.start, look.size], look.tmpPath, [mode], stack, look);
      calls := [load, lookup, call];
      if result {
        InjectionMade(arch, world, lib, mode, look, load, lookup, call);
      }
      hooked := result && reported % 0x1_0000_0000 != 0;
    }

    /** Lets the process run until it stops with SIGSEGV. */
    method RunToTrap(events: seq<Event>) returns (trapped: bool, gone: bool)
      requires Valid() && forall e <- events :: e.Stopped? ==> Plausible(arch, mem.Length, e)
      modifies this`regs, mem
      ensures Valid()
      ensures trapped <==> TrapIn(events).Stopped? && TrapIn(events).signal == SIGSEGV
      ensures trapped ==> regs == TrapIn(events).regs && mem[..] == TrapIn(events).memory
      ensures !trapped ==> regs == old(regs)
    {
      trapped, gone := false, false;
      var i := 0;
      assert events[0..] == events;
      while i < |events|
        invariant 0 <= i <= |events| && TrapIn(events[i..]) == TrapIn(events)
        invariant Valid() && regs == old(regs)
      {
        assert events[i..][1..] == events[i + 1..];
        match events[i]
        case ContFailed => return;
        case Gone => gone := true; return;
        case Stopped(signal, r, memory) =>
          if signal == SIGSEGV {
            Resume(Reply(true, false, true, r, memory));
            trapped := true;
            return;
          } else if signal != SIGSTOP {
            return;
          }
        i := i + 1;
      }
      gone := true;
    }

    /** The hijacked word is put back, the library injected and the registers restored. */
    method InjectAtTrap(world: World, script: Script, lib: seq<Byte>, mode: nat, look: Lookup, at: nat, entry: nat)
      returns (injected: bool, gone: bool, hooked: bool, ghost calls: seq<Call>)
      requires Valid() && Fits(world) && |lib| + |look.tmpPath| + 512 <= regs.sp <= at
      requires at + WordSize(arch) <= mem.Length
      modifies this`regs, this`blocks, mem
      ensures Valid()
      ensures Smooth(arch, world, mem.Length, look) && script.setOk ==> injected
      ensures injected ==> !gone && regs == old(regs).(ip := entry)
      ensures injected ==> Injected(arch, world, lib, mode, look, calls, hooked)
      ensures injected ==>
                mem[at..at + WordSize(arch)] == WordAfter(arch, script.restoreOk, entry, old(mem[at..at + WordSize(arch)]))
    {
      ghost var w, before, sp := WordSize(arch), mem[..], regs.sp;
      gone, hooked, injected, calls := false, false, false, [];
      if script.restoreOk {
        CopyBytes(mem, at, Encode(entry, WordSize(arch)));
        WrittenAt(before, at, Encode(entry, w));
      }
      ghost var restored := mem[..];
      assert mem[at..at + w] == restored[at..at + w];
      var backup := regs;
      var ok;
      ok, gone, hooked, calls := ExecuteRemoteInjection(world, lib, mode, look);
      if gone || !ok {
        return;
      }
      Kept(restored, mem[..], sp, at, w);
      if script.setOk {
        regs := backup.(ip := entry);
        injected := true;
      }
    }

    /** The entry word is hijacked and the process trapped and injected there. */
    method InjectThroughTrap(world: World, script: Script, lib: seq<Byte>, mode: nat, look: Lookup, at: nat, entry: nat)
      returns (injected: bool, gone: bool, hooked: bool, ghost calls: seq<Call>)
      requires Valid() && Fits(world) && at + WordSize(arch) <= mem.Length
      requires KeepWord(arch, mem[..], script, at, entry, |lib| + |look.tmpPath| + 512)
      modifies this`regs, this`blocks, mem
      ensures Valid()
      ensures Smooth(arch, world, mem.Length, look) && Trapped(arch, script, entry) ==> injected
      ensures injected ==>
                !gone && Injected(arch, world, lib, mode, look, calls, hooked)
                && InjectedAt(arch, script, at, entry, regs, FinalWord(arch, old(mem[..]), script, at, entry), mem[..])
    {
      ghost var before := mem[..];
      var breakAddress := BreakAddress(arch, entry);
      if script.hijackOk {
        CopyBytes(mem, at, Encode(breakAddress, WordSize(arch)));
      }
      injected, hooked, calls := false, false, [];
      var trapped;
      trapped, gone := RunToTrap(script.events);
      if !trapped || !script.gotTrapRegs || regs.ip / 2 != breakAddress / 2 {
        return;
      }
      ghost var trap := TrapIn(script.events);
      assert mem[at..at + WordSize(arch)] == trap.memory[at..at + WordSize(arch)]
          == HijackedWord(arch, before, script, at, entry);
      injected, gone, hooked, calls := InjectAtTrap(world, script, lib, mode, look, at, entry);
    }

    /** Injection into a program that has not run yet. A write that fails returns -1, which the
        tests for failure do not see, so both writes of the entry word count as done. */
    method InjectBeforeStart(world: World, script: Script, lib: seq<Byte>, mode: nat, look: Lookup,
                             ghost argc: nat, ghost envc: nat, ghost aux: seq<Aux>, ghost at: nat, ghost entry: nat)
      returns (injected: bool, gone: bool, hooked: bool, ghost calls: seq<Call>)
      requires Valid() && Fits(world) && Block(mem[..], regs.sp, WordSize(arch), argc, envc, aux)
      requires FirstEntry(aux) < |aux| ==>
                 && entry == aux[FirstEntry(aux)].value && at == EntrySlot(WordSize(arch), regs.sp, argc, envc, aux)
                 && at + WordSize(arch) <= mem.Length
                 && KeepWord(arch, mem[..], script, at, entry, |lib| + |look.tmpPath| + 512)
      modifies this`regs, this`blocks, mem
      ensures Valid()
      ensures Smooth(arch, world, mem.Length, look) && script.gotRegs && Trapped(arch, script, entry) ==>
                FirstEntry(aux) < |aux| && entry != 0 ==> injected
      ensures injected ==>
                && !gone && Injected(arch, world, lib, mode, look, calls, hooked) && FirstEntry(aux) < |aux| && at + WordSize(arch) <= mem.Length
                && InjectedAt(arch, script, at, entry, regs, FinalWord(arch, old(mem[..]), script, at, entry), mem[..])
    {
      injected, gone, hooked, calls := false, false, false, [];
      if !script.gotRegs {
        return;
      }
      var found, slot := FindEntry(mem, regs.sp, WordSize(arch), argc, envc, aux);
      if found == 0 {
        return;
      }
      assert slot == at && found == entry;
      assert KeepWord(arch, mem[..], script, slot, found, |lib| + |look.tmpPath| + 512);
      injected, gone, hooked, calls := InjectThroughTrap(world, script, lib, mode, look, slot, found);
    }

    /** Injection into a running process that was stopped. The first call does not look like an
        interrupted system call to the kernel, and the registers come back whether or not it works. */
    method InjectAfterStart(world: World, script: Script, lib: seq<Byte>, mode: nat, look: Lookup)
      returns (injected: bool, gone: bool, hooked: bool, ghost calls: seq<Call>)
      requires Valid() && Fits(world) && |lib| + |look.tmpPath| + 512 <= regs.sp
      modifies this`regs, this`blocks, mem
      ensures Valid()
      ensures Smooth(arch, world, mem.Length, look) && script.gotRegs && script.setOk ==> injected
      ensures injected ==> Injected(arch, world, lib, mode, look, calls, hooked)
      ensures injected && arch != Arm64 ==> calls[0].regs.syscall == -1
      ensures injected && PushesReturn(arch) ==> calls[0].regs.ret == 0
      ensures script.gotRegs && !gone && script.setOk ==> regs == old(regs)
      ensures injected ==> !gone && regs == old(regs) && mem[old(regs.sp)..] == old(mem[regs.sp..])
    {
      injected, gone, hooked, calls := false, false, false, [];
      if !script.gotRegs {
        return;
      }
      var backup := regs;
      regs := regs.(syscall := if arch == Arm64 then regs.syscall else -1, ret := 0);
      var success;
      success, gone, hooked, calls := ExecuteRemoteInjection(world, lib, mode, look);
      if gone {
        return;
      }
      if !script.setOk {
        return;
      }
      regs := backup;
      injected := success;
    }
  }
}
