# A model of NeoZygisk, with proofs

NeoZygisk loads a library into Android's zygote processes. A monitor traces init, catches each
zygote at its exec and starts an injector for it; a rearm does the same for zygotes that already
run; a daemon per ABI serves modules to the injected library and keeps a companion process per
module; and the injected library hides the traces of all this in its own process.

The project models these parts and proves what they promise. Code that changes state is written as
methods of classes, each proved against a function on values; what the code promises is then proved
of those functions. Where several processes or threads act at once, their atomic steps are events of
a state machine, and the claims hold after every sequence of events.

| file | what it models |
|---|---|
| `Monitor.dfy` | the init monitor, its SIGCHLD handler, and the kernel's half of the ptrace protocol |
| `ZygoteAbi.dfy` | the per-ABI manager: daemon, crash counter, confirmations and rearm |
| `Lifecycle.dfy` | zygotes and system_servers under injectors and rearms, all interleaved |
| `Injection.dfy`, `ArgBlock.dfy` | running functions in a stopped process; the kernel's argument block |
| `ElfParser.dfy`, `ElfHashes.dfy`, `Bits.dfy` | symbol lookup, its two hash functions, bitwise operations on naturals |
| `Atexit.dfy` | compaction of libc's atexit array in place, with its page arithmetic |
| `Fossil.dfy` | finding a leftover mount argument vector and overwriting it |
| `Solist.dfy` | taking records out of the linker's list of libraries |
| `JniHooks.dfy` | swapping the native methods of a class with an array, and back |
| `Unmount.dfy` | the zygote's mount traces, the unmount pass, and the namespace a process asks for |
| `Wire.dfy` | the byte streams between the daemon and the injected library |
| `Companions.dfy` | the daemon's module snapshots and companion processes under concurrent handlers |
| `Bytes.dfy`, `Sequences.dfy` | bytes in memory and numbers in bytes; parts of sequences, and sorting by a key |

What the code cannot see is an input: the answers of system calls, what a process does while it
runs, what the linker's own functions do to the list. An assumption about them is a named predicate.
`dafny verify dfyconfig.toml` checks the project.

## Where the code does less than it says

Each of these is a proved statement about the code as it is.

- A hand-over of a zygote to its injector forgets it in a stop for good exactly if the second fork
  fails or the zygote stops for another reason first (`Monitor.ForgottenExactly`,
  loader/src/ptracer/monitor_impl.cpp:675-707, loader/src/ptracer/utils.cpp:451-489).
- A rearm whose bounded wait runs out before its injector has attached lets a second rearm map the
  library over the first, from every reachable state in which that can happen
  (`Lifecycle.TimeoutMapsAgain`; `Lifecycle.StalledReached` gives such a state).
- A hooked zygote whose fork fails takes itself for the child, unloads the library and looks bare; a
  later rearm can map it again and drive the lifecycle of a system_server once more, again from every
  reachable state in which the fork may fail (`Lifecycle.FailedForkLooksBare`,
  `Lifecycle.ForkFailureMapsAgain`, `Lifecycle.ForkFailureRunsLifecycleAgain`).
- `write_proc` returns -1 when it fails, which the tests for failure at ptracer.cpp:288 and 344 read as
  success. The hijacked word comes back exactly if the second write worked or the first did not
  (`Injection.WordRestoredExactly`).
- On i386 a remote call enters its function with an aligned stack only if the number of arguments is a
  multiple of four; so of the three calls of an injection the first two are misaligned, and when the
  library cannot be loaded `dlerror` is aligned and `strlen` is not (`Injection.EntryAlignedExactly`,
  `Injection.InjectionCallsAligned`, `Injection.FailureCallsAligned`, loader/src/ptracer/ptracer.cpp:72-89).
- `page_end` is the ceiling exactly if its sum does not wrap (`Atexit.PageEndIsCeilingExactly`).
- Nothing compares the size of the clean fossil with the room there is: bytes behind the old fossil
  change unless the new one fits or happens to equal them (`Fossil.SpoofIsConfinedExactly`).
- Hooking twice restores a class exactly if no method that was hooked had a null function before
  (`JniHooks.TwiceRestoresExactly`, with the input that is lost in `JniHooks.NullOriginalIsLost`).
- The daemon and the zygote agree on the KernelSU loop device exactly if the first mount on the modules'
  directory is a loop mount or no mount there is (`Unmount.LoopSourcesAgreeExactly`).
- A module name comes back from the wire exactly if it holds no NUL (`Wire.StringRoundTrip`).
- An interrupted recvmsg is not tried again: the descriptor is then whatever the buffer held, and its four
  bytes are read as the start of the next name. For names a file system can have, the reply is read right
  exactly if no recvmsg is interrupted (`Wire.OneInterruption`, `Wire.Socket.ReadModules`,
  loader/src/common/socket_utils.cpp:48-78 and 150-158).
- Dropping libraries by freeing writes the size of each record back, and the linker does not free the head
  of its list: a match with a size remains exactly if the head is one and is not unloaded
  (`Solist.MatchRemainsExactly`, loader/src/injector/solist.cpp:209-228).
- A clean fossil is read back exactly if the strings of its mount entry hold no NUL
  (`Fossil.CleanReadsBackExactly`).

## Model

| member | source | states |
|---|---|---|
| Monitor.AppMonitor.RequestStart | loader/src/ptracer/monitor_impl.cpp:178-187 | A start re-seizes init from STOPPED, cancels a pending stop from STOPPING, and does nothing otherwise. |
| Monitor.AppMonitor.RequestStop | loader/src/ptracer/monitor_impl.cpp:189-197 | A stop interrupts init once and only from TRACING. |
| Monitor.AppMonitor.RequestExit | loader/src/ptracer/monitor_impl.cpp:199-205 | An exit leads to EXITING from every state and changes nothing else. |
| Monitor.AppMonitor.RequestRearm | loader/src/ptracer/monitor_impl.cpp:207-224 | A rearm starts tracing unless it failed, in which case the state is as before. |
| Monitor.AppMonitor.HandleChildEvent | loader/src/ptracer/monitor_impl.cpp:476-505 | Reaping a child settles it as the specification says, by the set it is in, a daemon's exit aside. |
| Monitor.AppMonitor.HandleParentEvent | loader/src/ptracer/monitor_impl.cpp:507-566 | Init and stub zygotes are resumed with the signal they may see, and init is detached when its stop was requested. |
| Monitor.AppMonitor.HandleNewProcess | loader/src/ptracer/monitor_impl.cpp:568-585 | The first stop of a new process puts it in the process set and resumes it. |
| Monitor.AppMonitor.HandleTracedProcess | loader/src/ptracer/monitor_impl.cpp:587-634 | A known process is kept, promoted, handed over or detached, with the status as the nested wait leaves it deciding the erase. |
| Monitor.AppMonitor.HandleExecEvent | loader/src/ptracer/monitor_impl.cpp:636-718 | An exec makes a stub zygote, hands a zygote to an injector, or is of no interest. |
| Monitor.InvStep | loader/src/ptracer/monitor_impl.cpp:476-718 | The invariant is kept by every event of the kernel, the user and the monitor. |
| Monitor.RunInv | loader/src/ptracer/monitor_impl.cpp:447-475 | It holds at every point of every run. |
| Monitor.InitFollowsState | loader/src/ptracer/monitor_impl.cpp:178-231 | In every interleaving init is attached in TRACING and STOPPING exactly if its seize was granted, never in STOPPED, and STOPPING has its interrupt stop on the way. |
| Monitor.ExitingIsFinal | loader/src/ptracer/monitor_impl.cpp:178-224 | EXITING is never left. |
| Monitor.NoTraceeForgotten | loader/src/ptracer/monitor_impl.cpp:568-634 | The two pid sets are disjoint, exclude init, and with init cover every attached process that has reported a stop; every reaped stop is answered. |
| Monitor.ParentsShielded | loader/src/ptracer/monitor_impl.cpp:507-566 | No parent is handed a job-control stop, no stub zygote a SIGCHLD. |
| Monitor.PassedExactly | loader/src/ptracer/monitor_impl.cpp:538-561 | A signal that stops a parent is passed on exactly if it is neither a job-control stop nor a SIGCHLD of a stub zygote, and nothing else ever is. |
| Monitor.ParentOutcome | loader/src/ptracer/monitor_impl.cpp:507-566 | A reaped parent goes on with its options, unless it died, or is init in the stop asked for, which is detached. |
| Monitor.CandidateOutcome | loader/src/ptracer/monitor_impl.cpp:568-718 | For any other process, by its report and its program: which set it ends in, whether it is traced and with what options, where it is left, and whether the monitor stops. |
| Monitor.OwnChildOutcome | loader/src/ptracer/monitor_impl.cpp:476-505 | A child of the monitor's own that is no daemon is taken for a new process. |
| Monitor.RequestOutcome | loader/src/ptracer/monitor_impl.cpp:178-224 | What each request comes to in each state: the state after it, init's seize and its interrupt, and nothing else. |
| Monitor.EveryReapSettles | loader/src/ptracer/monitor_impl.cpp:476-505 | After each reap the tracee is resumed, detached, or parked in SIGSTOP for an injector, or it died in the nested wait of a hand-over. |
| Monitor.ForgottenExactly | loader/src/ptracer/monitor_impl.cpp:675-707 | A reap leaves a process stopped for good exactly if it hands a zygote over and the second fork fails or another stop comes first. |
| Monitor.NothingForgotten | loader/src/ptracer/monitor_impl.cpp:675-707 | Where hand-overs go smoothly, nothing that was let go is ever forgotten. |
| Monitor.StartCancelsStop | loader/src/ptracer/monitor_impl.cpp:178-187 | A start that overtakes a stop: through any events that leave the monitor tracing, whether init had halted for the stop or had not yet, init stays attached and every reap resumes it. |
| Monitor.TracingResumesInit | loader/src/ptracer/monitor_impl.cpp:516-563 | No stop of init in TRACING detaches it. |
| Monitor.TracingKeepsInit | loader/src/ptracer/monitor_impl.cpp:447-475 | Nor does any other event. |
| Monitor.StopCompletes | loader/src/ptracer/monitor_impl.cpp:516-563 | A requested stop can always be completed by init's own stops alone. |
| Monitor.StopWithoutInit | loader/src/ptracer/monitor_impl.cpp:189-197 | If the seize was refused, only a start, a rearm or an exit ends STOPPING. |
| ZygoteAbi.ZygoteAbiManager.NotifyInjected | loader/src/ptracer/zygote_abi.cpp:73-76 | A report confirms the process it names and no other. |
| ZygoteAbi.ZygoteAbiManager.HandleDaemonExitIfMatch | loader/src/ptracer/zygote_abi.cpp:145-161 | Only the daemon's own exit clears its pid, so that another can be forked. |
| ZygoteAbi.ZygoteAbiManager.IsInCrashLoop | loader/src/ptracer/zygote_abi.cpp:87-97 | It reports a loop exactly if the streak of starts in quick succession has reached the limit. |
| ZygoteAbi.StreakMeans | loader/src/ptracer/zygote_abi.cpp:87-97 | The streak is at least n exactly if the last n starts came each within a window of the one before. |
| ZygoteAbi.ZygoteAbiManager.EnsureDaemonCreated | loader/src/ptracer/zygote_abi.cpp:99-131 | A daemon is forked exactly if there is none, and every confirmation is dropped with the old one. |
| ZygoteAbi.ZygoteAbiManager.CheckAndPrepareInjection | loader/src/ptracer/zygote_abi.cpp:133-143 | An injection is prepared exactly if there is no crash loop and a daemon runs. |
| ZygoteAbi.ZygoteAbiManager.AttachRunning | loader/src/ptracer/zygote_abi.cpp:163-201 | A process counts as attached, and is confirmed, only on the exit status of a hooking injector. |
| ZygoteAbi.ZygoteAbiManager.Rearm | loader/src/ptracer/zygote_abi.cpp:203-313 | The loops over the listing come to the pass of the specification: verdict, confirmations and zygote state. |
| ZygoteAbi.RearmPassMeans | loader/src/ptracer/zygote_abi.cpp:252-313 | Each verdict, and the zygote state that is shown, by what the looks at the listed zygotes found and what was confirmed before. |
| ZygoteAbi.RearmPassConfirms | loader/src/ptracer/zygote_abi.cpp:190-193 | Confirmed afterwards is exactly who was and still is a zygote or the system_server, every zygote that took hooks, and the system_server if it did. |
| ZygoteAbi.SecondPass | loader/src/ptracer/zygote_abi.cpp:252-313 | After a pass without a failure, one over the same zygotes, all mapped by then, answers AlreadyHooked exactly if those in flight at the first had been confirmed. |
| ZygoteAbi.ServerPidIs | loader/src/ptracer/zygote_abi.cpp:214-227 | The system_server is the last listed process of that name that init did not start. |
| ZygoteAbi.AlreadyHookedMeans | loader/src/ptracer/zygote_abi.cpp:309-312 | AlreadyHooked vouches for at least one confirmed zygote and none in any state but confirmed or in flight. |
| ZygoteAbi.SameConfirmations | loader/src/ptracer/zygote_abi.cpp:252-258 | Pruning does not change what a rearm decides about a zygote. |
| Lifecycle.InvStep | loader/src/ptracer/zygote_abi.cpp:260-306 | The invariant over zygotes, servers, injectors and the rearm is kept by every event. |
| Lifecycle.MappedAtMostOnce | loader/src/ptracer/zygote_abi.cpp:265-282 | In every run at most one event maps the library into a given zygote. |
| Lifecycle.LifecycleAtMostOnce | loader/src/ptracer/zygote_abi.cpp:290-306 | In every run, whether hooks were installed in its zygote before it was forked and how often an injector drove the lifecycle in it come to at most one for each system_server. |
| Lifecycle.SpecializedMeans | loader/src/injector/module.cpp:489-519 | A system_server specialized exactly if hooks had been installed in its zygote when it was forked. |
| Lifecycle.HookedMeans | loader/src/ptracer/zygote_abi.cpp:163-201 | A zygote is hooked exactly if hooks were installed in it. |
| Lifecycle.CountsMean | loader/src/ptracer/zygote_abi.cpp:163-201 | The counts of mappings and late lifecycles are counts of events of the run. |
| Lifecycle.BootReached | loader/src/ptracer/monitor_impl.cpp:669-707 | From every initial state the boot path leads to a system_server that specialized and that no late injector touched. |
| Lifecycle.LetGoLeavesBare | loader/src/ptracer/monitor_impl.cpp:655-667 | A zygote that is let go is bare. |
| Lifecycle.NeverTwoInjectors | loader/src/ptracer/zygote_abi.cpp:54-58 | Whoever starts an injector for a live zygote, no other is on its way to it or on it. |
| Lifecycle.LateInjectorMapsAgain | loader/src/ptracer/zygote_abi.cpp:163-201 | From a bare zygote, an injector slower than the wait leads to two mappings, by ordinary steps. |
| Lifecycle.TimeoutMapsAgain | loader/src/ptracer/zygote_abi.cpp:163-201 | From every reachable state in which the wait may run out before the injector has attached to its live zygote, letting it run out can end in two mappings, by ordinary steps. |
| Lifecycle.WindsDown | loader/src/ptracer/zygote_abi.cpp:260-306 | Every rearm can come to its end by its own steps and those of the injectors it waits for, which leave a zygote nothing holds as it was. |
| Lifecycle.StalledReached | loader/src/ptracer/zygote_abi.cpp:163-201 | A run with both provisos leads to a state in which the first would break. |
| Lifecycle.FailedForkLooksBare | loader/src/injector/module.hpp:302 | After a failed fork a hooked zygote is bare. |
| Lifecycle.BareZygoteRunsLifecycleAgain | loader/src/ptracer/zygote_abi.cpp:290-306 | A rearm of a bare zygote maps once more and drives the lifecycle of its server once more. |
| Lifecycle.ForkFailureMapsAgain | loader/src/injector/module.hpp:302 | From every reachable state in which the fork of a hooked zygote may fail, its failing can end in a second mapping. |
| Lifecycle.ForkFailureRunsLifecycleAgain | loader/src/ptracer/zygote_abi.cpp:290-306 | And in one more run of the lifecycle in any system_server alive then. |
| ElfHashes.CalculateGnuHash | loader/src/include/elf_parser.hpp:195-201 | The wrapping loop gives the base-33 polynomial of the name modulo 2^32. |
| ElfHashes.CalculateSysvHash | loader/src/include/elf_parser.hpp:181-193 | The loop with its 32-bit masks gives the hash of the System V gABI. |
| ElfHashes.SysvFoldIs | loader/src/include/elf_parser.hpp:186-191 | A round folds the top four bits back in and clears them. |
| ElfHashes.SysvHashBelow | loader/src/include/elf_parser.hpp:181-193 | The System V hash of every name is below 2^28. |
| ElfHashes.SysvIsPolynomialExactly | loader/src/include/elf_parser.hpp:181-193 | It is the base-16 polynomial of the name exactly if that is below 2^28. |
| ElfParser.ElfImage.FindSymbolByGnuHash | loader/src/common/elf_parser.cpp:185-218 | For every well-formed table the lookup ends with the value of the lowest-indexed hashed symbol of that name, or 0. |
| ElfParser.ElfImage.LookUp | loader/src/common/elf_parser.cpp:189-217 | The Bloom test, the bucket and the chain walk together find that value. |
| ElfParser.ElfImage.WalkChain | loader/src/common/elf_parser.cpp:203-216 | The walk ends at the end of the group and misses no symbol of that name in it. |
| ElfParser.BloomRejects | loader/src/common/elf_parser.cpp:189-197 | A name the Bloom test rejects is not among the hashed symbols. |
| ElfParser.BucketStart | loader/src/common/elf_parser.cpp:199-201 | An empty bucket has no symbols; any other starts with its first. |
| ElfParser.GroupStep | loader/src/common/elf_parser.cpp:203-216 | A chain word's lowest bit tells whether the group goes on. |
| ElfParser.TopBitsAgree | loader/src/common/elf_parser.cpp:205-208 | The comparison without the lowest bit rejects exactly words that differ in the others. |
| ElfParser.FirstValueIsLowest | loader/src/common/elf_parser.cpp:185-218 | The value is that of the lowest index, both ways. |
| ElfParser.OneSymbolTable | loader/src/common/elf_parser.cpp:147-184 | There are well-formed tables, for every hash function. |
| ElfParser.ElfImage.FindSymbolBySysvHash | loader/src/common/elf_parser.cpp:220-231 | Over an acyclic chain the walk ends with the first match along it. |
| ElfParser.SysvAgreesWithScan | loader/src/common/elf_parser.cpp:220-231 | With unique names that is what a plain scan of the table finds. |
| ElfParser.FirstAlongIs | loader/src/common/elf_parser.cpp:220-232 | Of several symbols of that name, the one that comes first along the chain. |
| ElfParser.ElfImage.BuildSymbolCache | loader/src/common/elf_parser.cpp:233-245 | The lazily built cache is the first-wins map of sized functions and objects. |
| ElfParser.FirstWinsIs | loader/src/common/elf_parser.cpp:233-245 | That map gives each name its first such symbol, and has no other names. |
| ElfParser.ElfImage.FindSymbolByLinearScan | loader/src/common/elf_parser.cpp:247-253 | The scan answers from the cache, built or not. |
| ElfParser.ElfImage.FindSymbolOffset | loader/src/common/elf_parser.cpp:127-147 | The GNU table's answer, unless it is 0; then the System V table's, unless it is 0; then the scan's. |
| ElfParser.OffsetZeroExactly | loader/src/common/elf_parser.cpp:127-147 | With names unique in each table the offset is 0 exactly if no table holds the name with a nonzero value. |
| Atexit.PageStartIsFloor | loader/src/include/atexit.hpp:40 | page_start is the floor multiple for every power-of-two page size. |
| Atexit.PageOffsetIsRemainder | loader/src/include/atexit.hpp:43 | page_offset is the remainder. |
| Atexit.PageEndIsCeilingExactly | loader/src/include/atexit.hpp:47 | page_end is the ceiling multiple exactly if the sum does not wrap. |
| Atexit.PagesOfIndex | loader/src/include/atexit.hpp:129-130 | The pages of an entry contain it. |
| Atexit.AtexitArray.SetWritable | loader/src/injector/atexit.cpp:144-156 | The range whose protection changes covers the entries, and is the same for opening and closing. |
| Atexit.AtexitArray.ShiftLive | loader/src/injector/atexit.cpp:98-113 | The in-place shift leaves the live entries in order in front. |
| Atexit.AtexitArray.DiscardPages | loader/src/injector/atexit.cpp:115-121 | Discarding zeroes the bytes of the range and no others. |
| Atexit.AtexitArray.Recompact | loader/src/injector/atexit.cpp:79-139 | What is left is exactly the live entries in order, zeroes up to the old size, and consistent counts; nothing changes if the pages cannot be opened; a completed pass leaves nothing to scrub. |
| Atexit.LiveCount | loader/src/injector/atexit.cpp:98-113 | The live entries are as many as the size less the null ones. |
| Atexit.LiveAt | loader/src/injector/atexit.cpp:98-113 | Each live entry moves down by the null ones in front of it. |
| Atexit.ShiftedStep | loader/src/injector/atexit.cpp:107-113 | One move keeps the relation between the array before and now. |
| Atexit.DiscardIsClear | loader/src/injector/atexit.cpp:115-121 | The discarded range starts behind the last live entry, even one that straddles a page. |
| Atexit.DiscardKeeps | loader/src/injector/atexit.cpp:115-121 | So no live entry loses a byte. |
| Atexit.PassKeepsLive | loader/src/include/atexit.hpp:135 | When libc's count of null entries is right, a completed pass leaves exactly the live entries, and as many fewer as were counted; `Recompact` promises it of the array. |
| Atexit.ScrubFingerprint | loader/src/injector/atexit.cpp:178-219 | The array is touched only under the lock, which is released on every path that took it; once it is taken, status, counters and contents are decided by the counts there were and what mprotect grants. |
| Fossil.ParseFromMemory | loader/src/injector/fossil.cpp:123-144 | Parsing in memory gives four strings, flags and sizes as the specification reads them. |
| Fossil.Find | loader/src/injector/fossil.cpp:33-42 | The search ends with the first address whose fossil passes the heuristics. |
| Fossil.HeuristicsAre | loader/src/injector/fossil.cpp:166-174 | What passes: a device, a path, a type of two to ten bytes, and "seclabel" among the options. |
| Fossil.WriteToMemory | loader/src/injector/fossil.cpp:44-63 | Writing leaves the image of the fossil there and everything else alone. |
| Fossil.CleanMemory | loader/src/injector/fossil.cpp:65-78 | Cleaning zeroes the fossil and its remnant and nothing else. |
| Fossil.RoundTrip | loader/src/injector/fossil.cpp:44-63 | Parsing what was written recovers the four strings, the flags and the size. |
| Fossil.ParsedIsImage | loader/src/injector/fossil.cpp:123-164 | What was parsed is, byte for byte, the image of the result. |
| Fossil.ParsedBytes | loader/src/injector/fossil.cpp:123-144 | What was parsed is source, target, type and options in this order, each with its NUL, and the flags. |
| Fossil.OverlayLeavesNoRemnant | loader/src/injector/clean.cpp:118-123 | Behind a fossil that fits no remnant is left. |
| Fossil.SpoofIsConfined | loader/src/injector/clean.cpp:118-123 | A fossil that fits changes no byte outside the old one and its remnant, and is what is parsed there next. |
| Fossil.SpoofIsConfinedExactly | loader/src/injector/clean.cpp:118-123 | Nothing outside changes exactly if it fits or its tail is already there. |
| Fossil.ReadsBackExactly | loader/src/injector/fossil.cpp:123-144 | Wherever a fossil's image is, parsing recovers its strings exactly if they hold no NUL. |
| Fossil.CleanReadsBackExactly | loader/src/injector/fossil.cpp:15-31 | A fossil made from a mount entry knows its own size, and is what is parsed where it was written exactly if the entry's strings hold no NUL. |
| Fossil.SpoofZygoteFossil | loader/src/injector/clean.cpp:89-124 | A fossil is replaced exactly if one is found off the anchor and there is a template, which is the first: its source, target, type and options with their NULs, the old flags, zeroes to where the fossil and its remnant ended, and nothing else. |
| Fossil.SpoofShowsTemplate | loader/src/injector/clean.cpp:118-123 | What is parsed there next is the template, string by string, with the old flags, and without a remnant if it fits. |
| Fossil.FirstTemplateIs | loader/src/injector/clean.cpp:103-112 | The template is the first entry with the anchor in its target that comes right in front of a suspicious one. |
| Solist.SoList.DropSoPath | loader/src/injector/solist.cpp:177-230 | The collect, sort and release loops come to the drops of the specification, with the first nonzero base and size. |
| Solist.FirstNonZeroIs | loader/src/injector/solist.cpp:216-217 | The base and size kept are what there was, or else the first that is not zero. |
| Solist.ReleasedIs | loader/src/injector/solist.cpp:218-226 | A record the linker keeps counts as constructed again, or has its size back. |
| Solist.SoList.StillLinked | loader/src/injector/solist.cpp:199-207 | The walk decides exactly whether a record can be reached. |
| Solist.CallsAreReachable | loader/src/injector/solist.cpp:197-228 | Only records still reachable are handed over, whatever earlier calls removed, with no size and, to be unloaded, as never constructed. |
| Solist.CallsDescend | loader/src/injector/solist.cpp:193-195 | They are handed over in strictly descending address order, so none twice. |
| Solist.NoMatchRemains | loader/src/injector/solist.cpp:177-230 | If the linker only removes records, and its free takes out the one it is given unless it is the head, no reachable match has a size any more once all are unloaded, or freed with the head not among them. |
| Solist.MatchRemainsExactly | loader/src/injector/solist.cpp:209-228 | After a whole call no match remains exactly if the records are unloaded or the head of the list does not match. |
| Solist.DropSoPathIsComplete | loader/src/injector/solist.cpp:177-230 | For one whole call: what is handed over matched, can be reached and descends, and when nothing remains. |
| Solist.SplicerBehaves | loader/src/injector/solist.cpp:197-228 | A linker that takes records out of the chain of links meets every assumption made of one. |
| Solist.SplicerDrops | loader/src/injector/solist.cpp:177-230 | With it, dropping by freeing leaves no match on any list whose head is none. |
| Solist.ChainIsDistinct | loader/src/injector/solist.cpp:187-191 | A list that ends runs through no record twice. |
| JniHooks.HookJniMethods | loader/src/injector/hook.cpp:328-370 | In place: an entry with a function that names a native method, static or not, trades places with it, the last one if several do; other entries are emptied, other methods left alone; a missing class empties the array. |
| JniHooks.RegisteredIs | loader/src/injector/hook.cpp:368-369 | Each method afterwards leads where the last entry for it says. |
| JniHooks.FinalIs | loader/src/injector/hook.cpp:337-366 | A hooked method leads to one of its entries, the last; others keep their function. |
| JniHooks.TwiceRestoresExactly | loader/src/injector/hook.cpp:435-437 | Hooking twice restores the class exactly if no hooked method was null before. |
| JniHooks.NullOriginalIsLost | loader/src/injector/hook.cpp:363-365 | A null original stays replaced. |
| JniHooks.UntouchedStay | loader/src/injector/hook.cpp:337-366 | Methods no entry hooks are the same throughout. |
| JniHooks.ArrayHoldsOriginals | loader/src/injector/hook.cpp:361-365 | While hooked, every entry for a method holds its old function. |
| JniHooks.MissingClassIsHarmless | loader/src/injector/hook.cpp:329-336 | After a missing class a later swap changes nothing. |
| ArgBlock.FindEntry | loader/src/ptracer/ptracer.cpp:226-274 | For every well-formed initial stack the scan ends with the first AT_ENTRY value and its address, or 0. |
| ArgBlock.FindAuxv | loader/src/ptracer/ptracer.cpp:230-250 | It finds the auxiliary vector behind arguments and environment. |
| ArgBlock.EntryIsInBlock | loader/src/ptracer/ptracer.cpp:252-274 | That word lies above the initial stack pointer and holds the entry address. |
| Injection.Tracee.AlignStack | loader/src/ptracer/utils.cpp:268-270 | The mask takes the stack pointer down to a multiple of 16. |
| Injection.Tracee.PushString | loader/src/ptracer/utils.cpp:276-288 | A string is put below the stack pointer; everything pushed before stays; 0 exactly if it cannot be written. |
| Injection.Tracee.RemoteCall | loader/src/ptracer/utils.cpp:308-435 | The function is entered at its address with each argument in its register or its stack slot and the way back where the convention has it; the call succeeds exactly if the frame can be written and the function comes back; then every string still holds, at entry and at return. |
| Injection.EntryCallEntered | loader/src/ptracer/utils.cpp:314-408 | This holds on all four architectures, for any number of arguments. |
| Injection.CallKeepsBlocks | loader/src/ptracer/utils.cpp:308-435 | Neither laying the frame nor a function that keeps the convention touches what was pushed. |
| Injection.EntryAlignedExactly | loader/src/ptracer/utils.cpp:310-401 | The alignment the ABI asks for holds exactly for these numbers of arguments, on all four architectures. |
| Injection.InjectionCallsAligned | loader/src/ptracer/ptracer.cpp:57-165 | The three calls of an injection are aligned, but for the first two on i386. |
| Injection.FailureCallsAligned | loader/src/ptracer/ptracer.cpp:66-95 | The two calls made when the library cannot be loaded are aligned, but for the second on i386. |
| Injection.Tracee.ExecuteRemoteInjection | loader/src/ptracer/ptracer.cpp:31-184 | Success means dlopen, dlsym and entry were entered in turn with their arguments and the strings there throughout, and the stack above is as it was; and if nothing goes wrong it succeeds. |
| Injection.ObligingIsSmooth | loader/src/ptracer/ptracer.cpp:31-184 | That nothing goes wrong is possible for a process that keeps the conventions. |
| Injection.Tracee.InjectBeforeStart | loader/src/ptracer/ptracer.cpp:215-368 | After success the library was injected, the registers are those of the trap with the instruction pointer at the entry, and the entry word is the one the two writes leave; and if nothing goes wrong it succeeds. |
| Injection.TrapInIs | loader/src/ptracer/ptracer.cpp:295-318 | Stray SIGSTOPs in front of the trap are passed over, and nothing else. |
| Injection.BreakAddressIs | loader/src/ptracer/ptracer.cpp:286-287 | The false entry address is a word near the end of the address space that selects the same instruction set. |
| Injection.WordRestoredExactly | loader/src/ptracer/ptracer.cpp:286-347 | That word is the old one exactly if the restoring write worked or the hijacking one did not. |
| Injection.Tracee.InjectAfterStart | loader/src/ptracer/ptracer.cpp:370-414 | The first call does not look like an interrupted system call; the registers come back whether or not the injection worked; success means the library was injected; and if nothing goes wrong it succeeds. |
| Wire.Socket.XRead | loader/src/common/socket_utils.cpp:12-28 | However reads are cut or interrupted, it takes all that was asked for or all there is. |
| Wire.Socket.XWrite | loader/src/common/socket_utils.cpp:30-46 | However writes are cut or interrupted, what it counts as written is exactly the front of the bytes, in order, and less than all only if a write fails. |
| Wire.Socket.ReadUsize | loader/src/common/socket_utils.cpp:130 | A whole word, or 0 if the stream ends before. |
| Wire.Socket.ReadString | loader/src/common/socket_utils.cpp:134-140 | The string up to its first NUL, its bytes taken whole. |
| Wire.Socket.RecvFd | loader/src/common/socket_utils.cpp:48-158 | The descriptor that came with four bytes, or -1; if it is interrupted, anything, and nothing is taken. |
| Wire.Socket.ReadModules | loader/src/common/daemon.cpp:97-112 | From a whole reply: every module in order with its own descriptor, and not a byte more, exactly if no recvmsg is interrupted. |
| Wire.OneInterruption | loader/src/common/socket_utils.cpp:48-78 | A one-module reply interrupted at its descriptor: the name is right, the descriptor's bytes are left. |
| Wire.LagsOnName | loader/src/common/socket_utils.cpp:134-140 | Once the stream lags, a name the file system can have is read as nothing. |
| Wire.LagsOnEmpty | loader/src/common/socket_utils.cpp:134-140 | And behind an empty one it lags still. |
| Wire.HandleReadModules | zygiskd/src/zygiskd.rs:544-557 | What is written is the front of the reply of the snapshot at the start, whatever refreshes land meanwhile, and all of it exactly if no write fails. |
| Wire.Exchange | zygiskd/src/zygiskd.rs:544-557 | Both ends of a connection: after a whole reply the client has the names and descriptors of that snapshot exactly if no recvmsg is interrupted. |
| Wire.StringRoundTrip | zygiskd/src/utils.rs:150-154 | A written string is read back up to its first NUL, with the stream behind it intact. |
| Wire.ModuleRoundTrip | zygiskd/src/zygiskd.rs:552-555 | A module's name and descriptor are read back, with the stream behind them intact. |
| Wire.CountRoundTrip | zygiskd/src/zygiskd.rs:551 | The count that comes first is that of the entries that follow, and the list of them is behind it. |
| Wire.RunModulesPre | loader/src/injector/module.cpp:361-370 | Module ids ascend and index the list, exactly those whose library loads, even when some fail. |
| Companions.InvStep | zygiskd/src/zygiskd.rs:58-116 | The invariant over snapshots, locks, sockets and children is kept by every step of every handler. |
| Companions.OneSocketPerModule | zygiskd/src/zygiskd.rs:569-630 | A module has at most one open companion socket, in its slot or in a handshake. |
| Companions.SpawnsOnlyForEmpty | zygiskd/src/zygiskd.rs:583-616 | A child is spawned only under the module's lock and when the module has no open socket. |
| Companions.CompanionStep | zygiskd/src/zygiskd.rs:583-616 | Each step of a request: a dead companion leaves its slot and is closed, a live one stays, a new one comes in if it is ready and is closed if not. |
| Companions.RequestServes | zygiskd/src/zygiskd.rs:569-630 | In the end the module has the live companion there was, or else a ready new one, or else none. |
| Companions.RestartEmpties | zygiskd/src/zygiskd.rs:223-230 | A restart empties one slot after the other and closes what was in it. |
| Companions.PublishOutcome | zygiskd/src/zygiskd.rs:108-112 | A new snapshot has no companions; held ones stay as they are, with their sockets; the rest go. |
| Companions.BeginOutcome | zygiskd/src/zygiskd.rs:569-581 | A request is for a module of the current snapshot, if it has one of that index. |
| Companions.EveryChildWaitedForOnce | zygiskd/src/zygiskd.rs:65-81 | Every spawned child is pending or was reaped, exactly once in all. |
| Companions.ReapedForGood | zygiskd/src/zygiskd.rs:65-81 | Only reaping takes a child off the pending list, for good. |
| Companions.PendingCompanions.ReapCompanions | zygiskd/src/zygiskd.rs:65-81 | Those that have not exited stay, in order. |
| Companions.ChosenParts | zygiskd/src/zygiskd.rs:69-80 | What stays and what leaves are all there was. |
| Companions.ChosenAscends | zygiskd/src/zygiskd.rs:69-80 | What stays and what leaves keep their order. |
| Companions.SocketsSurviveOnlyHeld | zygiskd/src/zygiskd.rs:108-112 | A socket survives only in the current snapshot or one that a handler holds. |
| Unmount.CheckZygoteTraces | loader/src/injector/unmount.cpp:95-156 | The loops select and sort the traces as specified, none if the root is unknown. |
| Unmount.ZygoteTracesAre | loader/src/injector/unmount.cpp:133-151 | With different ids they strictly descend and are exactly the mounts that give the modules away by root, target, source or the first loop device. |
| Unmount.KernelSuTraces | loader/src/injector/unmount.cpp:120-140 | With the names as they are, on a KernelSU device with a loop device. |
| Unmount.LoopSourcesAgreeExactly | zygiskd/src/mount.rs:187-193 | When the daemon's search for the loop device agrees with the zygote's, both ways. |
| Unmount.AbortZygoteUnmount | loader/src/injector/module.cpp:523-539 | The pass is aborted exactly if there is nothing to unmount or a target is the products' directory or, with Magisk, in it, but for its programs. |
| Unmount.ProhibitedTargets | loader/src/injector/module.cpp:529-535 | With the names as they are. |
| Unmount.HookContext.NativeForkAndSpecializePre | loader/src/injector/module.cpp:541-568 | A fork makes the pass of the specification, or leaves the zygote as it was. |
| Unmount.OnePass | loader/src/injector/module.cpp:546-567 | Over a zygote's life the pass runs at most once, and exactly the failed traces are kept, in order. |
| Unmount.FirstFindDecides | loader/src/injector/module.cpp:546-567 | The first fork that finds traces decides for good: it makes the pass, or, with a prohibited target, none is ever made. |
| Unmount.FailedAre | loader/src/injector/module.cpp:551-566 | What a pass leaves is exactly what it could not unmount, in order. |
| Unmount.PassOrder | loader/src/injector/module.cpp:551-566 | It tries each selected mount once, in strictly descending id. |
| Unmount.HookContext.NewUnshare | loader/src/injector/hook.cpp:107-123 | What a process asks for when it unshares. |
| Unmount.HiddenOrClean | loader/src/injector/hook.cpp:107-118 | The system server and a process without mounts of its own ask for nothing; one that should hide either has all selected traces unmounted in its zygote or asks for the clean namespace, never both; any other asks for the root namespace exactly after a pass. |

## Left out

- zygiskd/src/root_impl: shell commands and kernel interfaces; their answers are inputs.
- loader/src/ptracer/main.cpp, stage.cpp and the module scripts: command lines and file copies.
- The layouts loader/src/injector/solist.cpp:81-162 and the ElfImage constructor guess: the fields are given.
- Status texts, logging, the event loop, and the parsing of control datagrams.
- The JNI method table and the seccomp program: fixed tables.
- Namespace creation in zygiskd/src/mount.rs; Clean is a name here, and whether switching to it works is not modelled.
- The parsing of mountinfo lines; mounts are records.
- The counters of loader/src/injector/solist.cpp:232-252: two guarded subtractions.
- Real time: timeouts are outcomes, and start times an input to the crash counter.
- Monitor.NoTraceeForgotten: a handler is one step, so a tracee killed in the middle of one is not modelled, and init is never group-stopped.
- Lifecycle.MappedAtMostOnce: one zygote of the ABI is alive at a time and system_server dies with it; the two provisos are `Provided`, and each is shown to be needed.
- Lifecycle.LifecycleAtMostOnce: under the same provisos.
- ElfParser.ElfImage.FindSymbolByGnuHash: the table is well formed; a malformed one may read outside it.
- Fossil.SpoofZygoteFossil: the memory that the clean form of the template takes must exist, since nothing checks its size.
- Solist.SoList.DropSoPath: a write to a record the linker has freed is dropped here, while the code writes to the freed block; and where the code stores a whole word over the constructors-called flag (loader/src/include/solist.hpp:57-60), only the flag changes here, not the bytes next to it.
- Injection.Tracee.RemoteCall: the stack has room, the function respects its caller's frame if it returns, and the registers are those the call uses; a value arrives as it is only if it fits a word.
- Injection.Tracee.InjectBeforeStart: a write is whole or not at all, until the trap the program leaves the entry word alone, and reading its memory works.
- Injection.Tracee.InjectAfterStart: the bytes right below the interrupted stack pointer, the red zone of 128 bytes on x86_64, are overwritten; memory below the stack pointer is not promised anything.
- Wire.Socket.ReadString: a string that is cut short is followed by whatever the buffer held.
- Wire.Socket.RecvFd: the four bytes of a descriptor come in one message, taken whole or not at all.
- Wire.Socket.ReadModules: nothing is said of a reply that ends early, and read errors other than interruptions are not modelled; after an interruption nothing is said of names that hold a NUL or are 2^32 bytes long or longer.
- Wire.Exchange: the client reads when the daemon is done; the stream between them is not bounded.
- Companions.InvStep: the handlers are steps on values, since they interleave; the aliasing of shared references is their reference counting only, and a panic while a lock is held is not modelled.
- Unmount.HiddenOrClean: mounts that appear after the pass are not traces of that pass, and whether a process is to be reverted is an input.
