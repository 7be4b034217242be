# Models of the McKernel OS test suite

A conformance suite for an operating system kernel is mostly single system calls with an
assertion. A minority of its files hold algorithms, shared-memory protocols and stateful helpers
that the verdicts depend on. This project models those in Dafny and states, for all inputs, all
interleavings or all kernel behaviours, what they do.

System calls become small abstract operations: an address space of areas and bytes, semaphores, a
tracee with an oracle of outcomes, a policy store, a device buffer. Where the kernel has a choice
(a place for a mapping, a refusal, a fault, the order in which threads run) the choice is a
parameter and the results hold for every value of it. Shared memory is sequentially consistent, one
atomic load, store or semaphore operation per step.

| file | subject |
|---|---|
| Intervals, AddressSpace | a store of disjoint intervals; mmap, munmap, mremap and stores on it |
| RegionBuilder, MremapScenarios | the region builder, its checkers, five scenarios from build to verdict |
| Totals, TlsRendezvous | the two-semaphore rendezvous and its counters |
| FlagHandover | two processes handing a flag to each other |
| SpinBarrier | waiting flags, restarting scan, barrier, join and free |
| SiginfoReport | nested signal handlers and the reporting loop |
| Tracer | breakpoint and single-step tests on a traced process |
| NumaPolicy, NodeMask | overlapping policy requests; multi-word node masks |
| DeviceBuffer, ProcString | the test driver's buffer, page faults and string files |
| RemapFilePages, StackFrames, Pagemap, PiPartition, MigrateTarget, Division, Words | loops, recursion and word arithmetic |

Several properties one would expect of the code do not hold of all inputs. Each of these is stated
as an if-and-only-if:

- The failure test after reading the instruction word (`ptrace/006.c:98`, `ptrace/017.c:100`) looks
  at the address instead of the word, so a failed read goes unnoticed: `Tracer.RestoredIff`,
  `Tracer.NeighbourKeptIff`, with an instance in `Tracer.UnreadWordGoesUnnoticed`.
- Node masks are formed with a 32-bit shift: `NodeMask.BuilderIff`, `NodeMask.CheckIff`,
  `NodeMask.MaskTestIff`. The shift count is taken modulo 32, as the hardware does; C leaves counts
  above 30 undefined.
- A handler that interrupts another between its load and its store of the mask loses its bit:
  `SiginfoReport.DeliveredBitIff`, with a run in `SiginfoReport.LostBit`. The loop can leave before
  the last signals are printed: `SiginfoReport.PrintedAllIff`, with a run in
  `SiginfoReport.MissedSignal`.
- Page counts are `int`s: `DeviceBuffer.PageCountIff` and `RemapFilePages.LastPageIff`, with sizes for
  which nothing is checked in `DeviceBuffer.PageCountWraps` and `RemapFilePages.NothingCompared`.
- The page comparison reads through plain `char`: `RemapFilePages.FullFileIff`.
- The end of a read request can wrap: `ProcString.File.Read`. Likewise the page offset of a fault:
  `DeviceBuffer.FaultIff`.
- Unit counts are `int`s: `StackFrames.ValueToUnit`. Touching a buffer at page distances reaches
  its last page only when no more than a page is left to it: `StackFrames.EveryPageTouchedIff`.
- A frame number above the address width loses bits: `Pagemap.PhysExactIff`.

`dafny verify dfyconfig.toml` checks everything.

## Model

| member | source | states |
|---|---|---|
| Intervals.OverlayCorrect | test_mck/src/mbind/021.c:65-87 | Overlaying an interval with splitting and trimming keeps the store sorted and disjoint, and is pointwise last-writer-wins |
| AddressSpace.UnmapEffect | test_mck/src/mremap_mmap_anon/mremap_mmap_anon.c:114-117 | munmap unmaps exactly its range, every other address shows what it did, and the areas stay disjoint |
| AddressSpace.MapAtEffect | test_mck/src/mremap_mmap_anon/mremap_mmap_anon.c:127-128 | A fixed mapping shows zeroes with the requested protection over its range and changes no other address, private or shared |
| AddressSpace.RelocateEffect | test_mck/src/mremap_mmap_anon/007.c:26-43 | A move keeps the first min(old, new) bytes, unmaps the old range and leaves addresses outside source and target untouched |
| AddressSpace.ExtendEffect | test_mck/src/mremap_mmap_anon/103.c:26-48 | Growth in place keeps the old bytes, adds zero bytes to a private area and the object's own continuation (SIGBUS past its end) to a shared one |
| AddressSpace.MapResult | test_mck/src/mremap_mmap_anon/mremap_mmap_anon.c:106-137 | The exact result of munmap, of mmap at a fixed address and of mmap at a free place, and what the range shows afterwards |
| AddressSpace.StoreShows | test_mck/src/mremap_mmap_anon/mremap_mmap_anon.c:131-134 | A store succeeds exactly on a mapped, writable byte, and the stored byte is then shown wherever that byte is mapped |
| AddressSpace.MremapSound | test_mck/src/mremap_mmap_anon/007.c:26-43 | For every argument: an error changes nothing; a success keeps the common prefix, unmaps exactly the vacated range or tail, changes nothing else, returns the fixed target when asked and the old address when moving is not allowed |
| AddressSpace.MremapResult | test_mck/src/mremap_mmap_anon/000.c:29-35 | The exact result of every mremap without a fixed target: the old address for the same size, a shrink or a growth over free addresses, a new place only for a growth that may move and fits nowhere else, and the exact arguments for each error |
| AddressSpace.GrowInPlaceIff | test_mck/src/mremap_mmap_anon/004.c:24-30 | Without leave to move, growth succeeds exactly when every address after the area is unmapped and inside the user range; otherwise ENOMEM |
| AddressSpace.SharedGrowth | test_mck/src/mremap_mmap_anon/103.c:25-48 | A shared mapping that is grown, in place or by moving, keeps its bytes, and everything it gains lies beyond its object from the first byte on (SIGBUS) |
| AddressSpace.FixedMoveResult | test_mck/src/mremap_mmap_anon/008.c:27-34 | The exact result of a call with MREMAP_FIXED: EINVAL if and only if MREMAP_MAYMOVE is missing, an argument is bad or the target shares an address with the source, EFAULT if and only if the source is not one mapped area, success otherwise; a failure changes nothing |
| AddressSpace.MoveRoundTrip | test_mck/src/mremap_mmap_anon/007.c:26-36 | Moving an area to a vacant place and back restores what every address shows |
| AddressSpace.StepSound | test_mck/src/mremap_mmap_anon/mremap_mmap_anon.c:89-187 | Each mmap, munmap, mremap or store keeps the space well formed and touches only the addresses it names |
| AddressSpace.ExecSound | test_mck/src/mremap_mmap_anon/mremap_mmap_anon.c:89-187 | Over every run of such calls the areas stay disjoint, ordered and aligned, and an address no call names keeps its protection and byte |
| RegionBuilder.SumSizes | test_mck/src/mremap_mmap_anon/mremap_mmap_anon.c:96-104 | The first loop fails exactly when the true sum of sizes reaches 2^64, and otherwise returns that sum with every address marked as failed |
| RegionBuilder.FormatOne | test_mck/src/mremap_mmap_anon/mremap_mmap_anon.c:114-137 | One region becomes unmapped, or mapped and filled, with nothing outside it changed; a failure changes nothing |
| RegionBuilder.FormatAll | test_mck/src/mremap_mmap_anon/mremap_mmap_anon.c:113-141 | The second loop stops at the first region that cannot be formatted, with exactly the regions before it laid out and their addresses recorded |
| RegionBuilder.Build | test_mck/src/mremap_mmap_anon/mremap_mmap_anon.c:89-142 | A wrapping sum or failed reservation returns 0 with no mapping made; otherwise the result n is the first region that fails (or the count), the first n regions tile the reservation back to back with byte '0'+i in the writable ones, the rest stays reserved, and nothing outside changes |
| RegionBuilder.FilledRegion | test_mck/src/mremap_mmap_anon/mremap_mmap_anon.c:127-135 | Mapping and filling one region shows its byte throughout and reaches no byte shown elsewhere, shared areas included |
| MremapScenarios.DataCheck | test_mck/src/mremap_mmap_anon/mremap_mmap_anon.c:144-157 | Succeeds exactly when every byte of the range is readable and equal to the expected one; otherwise the first bad byte decides between a mismatch and a fault |
| MremapScenarios.Memset | test_mck/src/mremap_mmap_anon/mremap_mmap_anon.c:185-185 | Succeeds exactly when every byte is writable, leaves them all at the value, and writes no byte the range does not show, whatever areas it crosses |
| MremapScenarios.AccessCheck | test_mck/src/mremap_mmap_anon/mremap_mmap_anon.c:159-187 | The exact verdict on every range: failure at null, success on an empty range or one that can be written throughout and read at both ends (which is then all '0'), a fatal signal otherwise; no byte outside what the range shows is written |
| MremapScenarios.Prepare | test_mck/src/mremap_mmap_anon/007.c:20-24 | A build of private whole-page regions is complete when nothing is refused, and then each region is at its offset, is one area and shows its protection and byte |
| MremapScenarios.Probe | test_mck/src/mremap_mmap_anon/014.c:42-49 | Reading one byte under a SIGSEGV handler: the exact verdict for every address |
| MremapScenarios.Scenario004 | test_mck/src/mremap_mmap_anon/004.c:7-33 | From build to verdict, whatever kernel answers: the build is complete when nothing is refused, the test then passes exactly when growth over the second region fails with ENOMEM, and the model's mremap makes it pass |
| MremapScenarios.Scenario007 | test_mck/src/mremap_mmap_anon/007.c:7-51 | The same for a fixed move over half of a larger region: it passes exactly when the call returns the target, the moved bytes and the kept remainder read as expected and the result can be used throughout |
| MremapScenarios.Scenario008 | test_mck/src/mremap_mmap_anon/008.c:7-37 | The same for a fixed target overlapping the source: it passes exactly on EINVAL |
| MremapScenarios.Scenario014 | test_mck/src/mremap_mmap_anon/014.c:8-48 | The same for a shrink by one page: it passes exactly when the prefix is kept and the first address cut off raises SIGSEGV |
| MremapScenarios.Scenario015 | test_mck/src/mremap_mmap_anon/015.c:8-48 | The same for growth by moving: it passes exactly when the bytes are kept and the old address raises SIGSEGV; with the model's mremap, exactly when the offered place is free |
| TlsRendezvous.RunInv | test_mck/src/tls/001.c:25-44 | The invariant of semaphores, program counters and counters holds along every interleaving, for any number of threads and increments |
| TlsRendezvous.NoEarlyStart | test_mck/src/tls/001.c:76-92 | No thread is past its wait on start before every thread has posted its sync |
| TlsRendezvous.CountersInEveryState | test_mck/src/tls/001.c:25-44 | Every joined thread has recorded exactly the increment count; the racy counter never exceeds the stores made so far, hence never threads times increments |
| TlsRendezvous.LostUpdate | test_mck/src/tls/001.c:35-38 | From any state with two threads about to load, a schedule of two loads then two stores raises the counter by one only |
| TlsRendezvous.FinalCounter | test_mck/src/tls/001.c:35-38 | At the end of every run the racy counter is at most threads times increments, and at least two (or the increment count if that is less) |
| TlsRendezvous.EveryCounterReached | test_mck/src/tls/001.c:25-106 | For two or more threads and increments, every value from two to threads times increments is reached by a run of the test that passes |
| TlsRendezvous.CounterIff | test_mck/src/tls/001.c:25-106 | So those are exactly the values the racy counter can end with |
| TlsRendezvous.EveryMaximalRunPasses | test_mck/src/tls/001.c:76-106 | Every run that cannot go on has passed the check, and all of them have the same number of steps |
| TlsRendezvous.CheckIff | test_mck/src/tls/001.c:102-106 | Whatever the children recorded, the final comparison passes exactly when every record is the expected count |
| TlsRendezvous.CanMove | test_mck/src/tls/001.c:76-106 | No deadlock: until main has finished, some thread can move |
| FlagHandover.RunInv | test_mck/src/time_sharing/000.c:20-46 | The handover invariant holds along every interleaving, for any round count |
| FlagHandover.MutualExclusion | test_mck/src/time_sharing/000.c:20-46 | In every reachable state at most one process is between its wait and its flag write |
| FlagHandover.AlternatingTrace | test_mck/src/time_sharing/000.c:20-46 | What has been printed is always a prefix of the alternating trace, and the whole trace when both are done |
| FlagHandover.TraceAt | test_mck/src/time_sharing/000.c:26-40 | Line 2c of the trace is the child's c-th and line 2c+1 the parent's c-th |
| FlagHandover.Progress | test_mck/src/time_sharing/000.c:20-46 | Each step spins or uses up one of finitely many steps, and unless both are done one process can take such a step |
| FlagHandover.FairRunsPrintEverything | test_mck/src/time_sharing/000.c:20-93 | When both processes step in every round, in either order, 6n+2 rounds end with the whole trace printed |
| SpinBarrier.RunInv | test_mck/src/cpu_thread_limits/000.c:24-89 | The barrier invariant holds along every interleaving, for any number of threads |
| SpinBarrier.BarrierSafety | test_mck/src/cpu_thread_limits/000.c:24-89 | If any child has left the spin loop then all have set waiting; once the array is freed every child has exited and cannot touch it |
| SpinBarrier.FlagsMonotone | test_mck/src/cpu_thread_limits/000.c:77-82 | A waiting flag never goes down again: what the non-atomic, restarting scan relies on |
| SpinBarrier.FullPassBeforeRaise | test_mck/src/cpu_thread_limits/000.c:77-84 | Main raises the barrier only after a pass that read every child's flag in index order, each of them set, with no restart in between |
| SpinBarrier.SomeoneProductive | test_mck/src/cpu_thread_limits/000.c:77-89 | Until main is done, main or some child can make progress |
| SpinBarrier.FairRunsFinish | test_mck/src/cpu_thread_limits/000.c:24-89 | 6n+9 rounds in which everyone steps, in any order, end with every child gone and the array freed |
| SiginfoReport.RunInv | test_mck/src/siginfo/support_siginfo.c:9-13 | The reporting invariant holds along every run, handlers interrupting main and each other at any point |
| SiginfoReport.ReportSafety | test_mck/src/siginfo/001.c:58-64 | old_ds is always part of delivered_signal, reported masks are pairwise disjoint, no signal is printed twice, print_ds equals old_ds between reports, a printed record was delivered for that signal, and the records of all seen and printed signals have been stored |
| SiginfoReport.HandlersFinish | test_mck/src/siginfo/support_siginfo.c:9-13 | Left to themselves the active handlers all finish, and leave the mask that Unwind gives |
| SiginfoReport.DeliveredBitIff | test_mck/src/siginfo/support_siginfo.c:9-13 | Whatever else happens but another delivery of the same signal, its bit is set when no handler is active any more if and only if, at delivery, no interrupted handler was between its load and its store of the mask or the outermost such handler had loaded the bit |
| SiginfoReport.LostBit | test_mck/src/siginfo/support_siginfo.c:9-13 | A run from the start that loses the bit of a delivered signal |
| SiginfoReport.PrintedAllIff | test_mck/src/siginfo/001.c:58-64 | A run that leaves the loop has printed exactly the signals that were set when its last pass began: all the expected ones if and only if the mask was complete then |
| SiginfoReport.LeavingStep | test_mck/src/siginfo/001.c:58-64 | At the test that leaves, everything expected has been printed if and only if nothing was added to the mask since the last pass began |
| SiginfoReport.MissedSignal | test_mck/src/siginfo/001.c:58-64 | A run from the start that leaves the loop with a delivered, expected signal not printed |
| SiginfoReport.NeverLeaves | test_mck/src/siginfo/001.c:58-64 | From a state whose mask is going to differ from the expected one in some bit, no run without another delivery of that signal leaves the loop |
| SiginfoReport.NextPassTakesAll | test_mck/src/siginfo/001.c:59-63 | The next pass of the loop takes up exactly the unseen bits |
| SiginfoReport.ReportsBeforeLeaving | test_mck/src/siginfo/001.c:59-63 | Masks are only ever appended, and a run that has seen the outer test fail does not leave before another mask is reported |
| Tracer.RewriteBrk | test_mck/src/arch/arm64/arch_test_ptrace.c:620-638 | The tracee's own brk, at the address read from the tracee, is overwritten by two nops, or nothing is written, exactly as the two answers say; the tracee stays stopped |
| Tracer.Plant | test_mck/src/ptrace/017.c:74-112 | Up to planting the breakpoint, for every sequence of system call outcomes: the exact outcomes that get through, and the text after those that do not |
| Tracer.Restore | test_mck/src/ptrace/017.c:135-141 | The instruction word is put back exactly when the call succeeds |
| Tracer.StepLoop | test_mck/src/ptrace/017.c:143-212 | The loop gets through exactly when step k is reported as a hardware-breakpoint trap at nop+4(k+1) for each k, those are the addresses checked, and its requests are a single step and a siginfo query in turn |
| Tracer.ParentBreakpoint | test_mck/src/ptrace/006.c:63-194 | Every request is made while the tracee was last seen stopped; the requests follow the test's script, stop at the first failure with the tracee told to go on, and on success are the whole script and a final continue; text writes are a prefix of nops, breakpoint, restore, at the addresses read from the tracee; the result is 0 exactly for the stated outcomes, and then the text is as before the breakpoint if and only if the instruction word was really read (or was all ones) |
| Tracer.ParentSingleStep | test_mck/src/ptrace/017.c:63-227 | The same for any number of single steps, the script then holding a single step and a siginfo query per step |
| Tracer.Scripts | test_mck/src/ptrace/017.c:63-227 | The two scripts, request by request |
| Tracer.Encodings | test_mck/src/ptrace/017.c:106-106 | The written words in numbers: two nops; brk in the lower half with the upper half kept |
| Tracer.RestoredIff | test_mck/src/ptrace/017.c:99-141 | After a full run the text is as before the breakpoint if and only if the instruction word was really read (or was all ones): the failure test after the read looks at the address, not the word |
| Tracer.NeighbourKeptIff | test_mck/src/ptrace/017.c:106-141 | Both writes keep the neighbouring upper instruction if and only if the word was really read (or that instruction is all ones) |
| Tracer.UnreadWordGoesUnnoticed | test_mck/src/ptrace/006.c:96-108 | A concrete kernel for which the read fails, the test reports success and the text is left changed |
| NumaPolicy.Buffer.Mbind | test_mck/src/mbind/021.c:69-70 | One request overrides the pages it covers and no other; one that covers a page outside the seven regions is refused and changes nothing |
| NumaPolicy.InBufferIff | test_mck/src/mbind/021.c:69-70 | A request fits exactly when each page it covers is one of the regions 0 to 6 |
| NumaPolicy.Replay | test_mck/src/mbind/021.c:65-85 | The replayed requests leave exactly the last-writer policy on every page, whichever call fails first |
| NumaPolicy.MbindCheck | test_mck/src/numa.c:90-121 | Returns 0 exactly when every query succeeds and every region's mode and first mask word equal the expectation; the words written by the queries, and no others, are changed |
| NumaPolicy.MbindTest | test_mck/src/mbind/021.c:31-92 | The whole test passes if and only if every request fits, every query succeeds and the table is the last-writer table |
| NumaPolicy.SuiteTables | test_mck/src/mbind/021.c:31-44 | The nine expectation tables of mbind 015 to 023 are the last-writer tables of their requests |
| NumaPolicy.SuitePasses | test_mck/src/mbind/021.c:31-44 | With no failing call the nine tests pass, each on the table it spells out |
| NodeMask.CreateNodeMask | test_mck/src/numa.c:37-54 | A zeroed array of the fewest words that hold the nodes, at least one; for the last 63 numbers of nodes the rounding wraps and it is a single word |
| NodeMask.BuildMask | test_mck/src/mbind/013.c:49-59 | The loop builds all-ones words and a last word from the int expression, as far as its int counter reaches |
| NodeMask.NodeMaskCheck | test_mck/src/numa.c:64-87 | Accepts exactly the arrays whose words, up to the last one as an int has it, are all ones with the int expression at the end |
| NodeMask.IntMaskIff | test_mck/src/numa.c:73-73 | The int expression is the low s ones exactly up to s = 31 |
| NodeMask.CheckIff | test_mck/src/numa.c:64-87 | On masks sized for one node more, the checker accepts exactly the set 0..n-1 if and only if n mod 64 is at most 31 and an int can count the words |
| NodeMask.BuilderIff | test_mck/src/mbind/013.c:49-59 | The builder sets exactly nodes 0..max_node if and only if max_node mod 64 is at most 30 and an int can count the words |
| NodeMask.KeptNodes | test_mck/src/mbind/013.c:69-74 | Cutting a mask at maxnode-1 keeps exactly the nodes below it |
| NodeMask.MaskTestIff | test_mck/src/mbind/013.c:40-86 | Build, truncate and check together are accepted if and only if max_node mod 64 is at most 30, or there are more words than an int can count and so not all are read |
| NodeMask.MaskTest | test_mck/src/mbind/013.c:24-90 | The whole test, for every max_node and every failing call: with none failing it passes if and only if max_node is not zero, its rounding does not wrap, and its residue is at most 30 or its words are more than an int can count |
| DeviceBuffer.BufferIs | test_drv/test_mck_drv-mmap_dev2.c:11-12 | The buffer is one page longer than a block, in numbers, for each page size |
| DeviceBuffer.Device.Reset | test_drv/test_mck_drv-mmap_dev2.c:99-115 | Every byte of page k becomes (k+1) mod 256, in numbers, and each byte is written exactly once |
| DeviceBuffer.WantedPageIs | test_mck/src/mmap_dev/001.c:57-67 | The page that is compared with starts with 'Z' and holds (k+1) mod 256 after it, so it tells two pages apart unless their numbers agree modulo 256 |
| DeviceBuffer.FaultIff | test_drv/test_mck_drv-mmap_dev2.c:37-56 | A fault is served exactly when the page offset, modulo the number of pages in 2^64 bytes, is a buffer page, hence exactly for in-range offsets that fit an address |
| DeviceBuffer.Mapping.Touch | test_mck/src/mmap_dev/001.c:50-55 | A store through a private mapping copies the page and leaves the device alone; through a shared one it changes one device byte |
| DeviceBuffer.PageCountIff | test_mck/src/mmap_dev/001.c:51-51 | The int page count is the number of pages if and only if that fits an int, and up to there it is within the buffer if and only if the size is |
| DeviceBuffer.PageCountWraps | test_mck/src/mmap_dev/001.c:51-51 | A size of 2^32 pages counts as no page, so that nothing is written or compared |
| DeviceBuffer.PrivateTest | test_mck/src/mmap_dev/001.c:19-78 | The exact verdict for every size and every failing call: with no failing call it passes if and only if the size is not zero and the page count is within the buffer; the device keeps its reset contents |
| DeviceBuffer.SharedTest | test_mck/src/mmap_dev/002.c:19-86 | The same exact verdict through a second mapping, and the exact device contents: the marks of the counted pages and nothing else |
| RemapFilePages.CreateFile | test_mck/src/remap_file_pages/remap_file_pages.c:23-40 | The file holds, in order, the bytes stored by each page write, complete, partial or failed, of at most 2^31 writes as the int counter stops there; each page starts with its hash and is otherwise zero |
| RemapFilePages.LastPageIff | test_mck/src/remap_file_pages/000.c:71-71 | The computed last page is the last page if and only if there are at most 2^31 pages; it is always a page of the file or negative |
| RemapFilePages.Reverse | test_mck/src/remap_file_pages/000.c:70-81 | Each page is remapped at most once; the loop stops at the first refused page having remapped exactly the pages before it, and otherwise page j shows file page last-j |
| RemapFilePages.Compare | test_mck/src/remap_file_pages/remap_file_pages.c:42-58 | Succeeds exactly when every page up to the last shows a page of the file whose first byte, read as a char, is the hash of page last-j |
| RemapFilePages.FullFileIff | test_mck/src/remap_file_pages/remap_file_pages.c:18-58 | On a fully written file the comparison accepts a reversed mapping always with unsigned char, and with signed char exactly up to 128 pages |
| RemapFilePages.OnlyReversedPasses | test_mck/src/remap_file_pages/remap_file_pages.c:42-58 | On a fully written file of at most 256 pages the comparison accepts no mapping but the reversed one |
| RemapFilePages.RemapTest | test_mck/src/remap_file_pages/000.c:45-89 | The exact verdict whatever the writes store and whichever remaps fail; with all writes complete it passes if and only if mmap and every remap up to the computed last page succeed and the char is unsigned or that page is below 128 |
| RemapFilePages.NothingCompared | test_mck/src/remap_file_pages/000.c:71-73 | With 2^31 + 1 pages the last page is negative: nothing is remapped or compared |
| ProcString.File.Read | test_drv/test_mck_drv.c:73-98 | One read delivers the text between the position and the end of the request, or reports the fault and stays, exactly when the end of the request does not wrap (or the position is past the end, or a fault hides the difference); the exact outcome when it does wrap |
| ProcString.RunDelivers | test_drv/test_mck_drv.c:73-98 | Any sequence of reads delivers exactly the text between the first and last positions, and the last one is where the requests that did not fault lead, cut at the end of the text |
| ProcString.WholeText | test_drv/test_mck_drv.c:73-98 | Requests totalling at least the length deliver the whole text from position 0, after which every read returns 0 and stays |
| ProcString.ReadAll | test_drv/test_mck_drv.c:73-98 | Calling the handler once per request, for any requests, yields the outcomes of that run if and only if none of them wraps where the run would make it |
| StackFrames.ValueToUnit | test_mck/src/mem_stack_limits/000.c:93-107 | The counts split the value into GiB, MiB and KiB with less than a KiB left if and only if the value is below 2^61 |
| StackFrames.SplitUnique | test_mck/src/mem_stack_limits/000.c:93-107 | Such a split is unique |
| StackFrames.Touch | test_mck/src/mem_stack_limits/000.c:43-50 | The loop sets the low byte of exactly the words at page distances to 255, keeps the rest of them and every other word, and never marks its own counter, which is word 1 of the buffer |
| StackFrames.EveryPageTouchedIff | test_mck/src/mem_stack_limits/000.c:43-80 | For every non-empty buffer, each page it occupies holds a touched byte if and only if its offset in its first page and the bytes from its last touched one on fit one page together |
| StackFrames.TouchedByWords | test_mck/src/mem_stack_limits/000.c:60-62 | The touched pages are exactly the pages of the words that the loop marks |
| StackFrames.WholePagesTouchedIff | test_mck/src/mem_stack_limits/000.c:56-80 | So buffers of whole pages (the MiB and GiB frames) are touched throughout if and only if page-aligned |
| StackFrames.ShortTouchedIff | test_mck/src/mem_stack_limits/000.c:43-54 | And buffers within a page size (the KiB frames) if and only if they do not cross a page boundary |
| StackFrames.Stack.StackLimit | test_mck/src/mem_stack_limits/000.c:82-91 | For all int counts the mutual recursion ends after exactly one frame per turn of a count (negative ones wrap), GiB frames first, with counts at zero, the stack pointer back and the depth of all frames recorded |
| StackFrames.Stack.Frame | test_mck/src/mem_stack_limits/000.c:43-80 | The same for one frame function |
| StackFrames.PushesBytes | test_mck/src/mem_stack_limits/000.c:43-80 | The buffers of these frames total the counted bytes |
| StackFrames.StackTest | test_mck/src/mem_stack_limits/000.c:109-133 | For every size the test passes unless it is zero and pushes one frame per turn of the printed counts; the depth it prints is that of its frames (the raw stack pointer when there are none); below 2^61 and only there the counts are the split of the size, and the buffers then total the size rounded down to a KiB; every frame's buffer is left touched at page distances |
| Pagemap.MasksPartition | test_mck/src/test_mck.c:268-278 | The status, page-shift and frame masks cover all 64 bits exactly once |
| Pagemap.PackDecoded | test_mck/src/test_mck.c:268-278 | Every word is the packing of its three fields |
| Pagemap.DecodePackedIff | test_mck/src/test_mck.c:268-278 | Fields survive packing if and only if each fits its width |
| Pagemap.DecodersAgree | test_mck/src/procfs/008.c:72-76 | The two decoders agree on every word |
| Pagemap.SizeAgrees | test_mck/src/procfs/008.c:75-75 | The computed page size is 64 KiB exactly when the other test reads page shift 16 |
| Pagemap.SizeIs | test_mck/src/test_mck.c:322-322 | The page size is the single bit at the page shift: 4, 16 and 64 KiB and 2 MiB for shifts 12, 14, 16 and 21 |
| Pagemap.EntryPerPage | test_mck/src/test_mck.c:302-305 | Addresses share an entry exactly when they share a page, distinct entries do not overlap, and both tests compute the same position |
| Pagemap.PhysExactIff | test_mck/src/test_mck.c:321-321 | The physical address keeps the in-page offset and the frame's bits that fit, and so gives the frame back if and only if the frame's address fits 64 bits |
| Pagemap.Rejoined | test_mck/src/test_mck.c:321-321 | Every address is the one made of its page number and its in-page offset |
| Pagemap.Decode | test_mck/src/test_mck.c:321-324 | The four fields describe the word in the other decoder's terms |
| Pagemap.GetMemoryInfo | test_mck/src/test_mck.c:282-331 | Null record refused, record cleared on each failure, otherwise it describes the entry of the address's page, bytes that were not read counting as zero |
| Pagemap.FilledIs | test_mck/src/test_mck.c:314-319 | After a short read the word holds the low bytes read and zeros above |
| PiPartition.ShareSize | test_mck/src/cpu_thread_limits/001.c:80-81 | Shares differ in length by at most one: each has one of the two lengths next to numdiv / threads |
| PiPartition.UniqueOwner | test_mck/src/cpu_thread_limits/001.c:79-86 | Every index belongs to exactly one thread |
| PiPartition.Ordered | test_mck/src/cpu_thread_limits/001.c:79-86 | The shares are consecutive and in order |
| PiPartition.FillArgs | test_mck/src/cpu_thread_limits/001.c:79-86 | The loop gives thread i its share, identity and cleared result |
| PiPartition.PiCalc | test_mck/src/cpu_thread_limits/001.c:43-49 | A thread's result is the midpoint sum over its share times the strip width |
| PiPartition.Reduce | test_mck/src/cpu_thread_limits/001.c:105-108 | Adding the partial results gives the sequential midpoint sum, over exact reals |
| PiPartition.CurveIs | test_mck/src/cpu_thread_limits/001.c:43-49 | The summed curve is 4/(1+x^2) |
| PiPartition.PiBetween | test_mck/src/cpu_thread_limits/001.c:43-49 | For every number of strips the result is strictly between 2 and 4 |
| PiPartition.PiOneStrip | test_mck/src/cpu_thread_limits/001.c:43-49 | With one strip the result is 3.2, the value of the midpoint rule |
| PiPartition.PiTest | test_mck/src/cpu_thread_limits/001.c:79-108 | The result is the area of the sequential midpoint sum, the threads finishing in any order, and lies strictly between 2 and 4 |
| MigrateTarget.Target | test_mck/src/sched_setaffinity/008.c:14-24 | The doubly recursive search ends for all integers, does not go above its target and avoids the child's CPU |
| MigrateTarget.TargetGreatest | test_mck/src/sched_setaffinity/008.c:14-24 | The result is the greatest number not above the target that avoids the child, and the parent unless negative |
| MigrateTarget.TargetIff | test_mck/src/sched_setaffinity/008.c:14-24 | It is the only such number |
| MigrateTarget.ChosenIff | test_mck/src/sched_setaffinity/008.c:106-108 | The caller's check succeeds if and only if some CPU is free of parent and child; so always with three CPUs or more |

## Left out

- AddressSpace.MremapSound: sizes whose page rounding wraps 2^64, and an old size of 0 (which Linux treats as duplicating a shared mapping), are taken as plain numbers or refused with EINVAL.
- AddressSpace.ExecSound: protections are read and write only; adjacent areas are never merged, so a request that spans two areas of equal attributes is refused as the kernel would refuse two unmergeable ones.
- RegionBuilder.Build: one page size, 4 KiB; the fill of a region is one step inside its area; more regions than the source's `int` counter can count are excluded, C leaving them undefined.
- TlsRendezvous.EveryMaximalRunPasses: thread creation failures, and more threads than an `int` can count, are not modelled.
- FlagHandover.FairRunsPrintEverything: the pauses between print and flag write are not modelled; migration of the parent and the two setup semaphores come before the model starts.
- SiginfoReport.ReportSafety: siginfo records are opaque values, and SIGKILL and SIGSTOP, which have no handler, are not excluded.
- Tracer.ParentSingleStep: the traced process does not write its own text, and a successful peek clears errno as glibc does.
- NumaPolicy.MbindTest: node validity, policy flags and the check of the max_node option are not modelled.
- RemapFilePages.RemapTest: `int` counters wrap where C leaves their overflow undefined.
- StackFrames.StackTest: the stack has no limit, `int` counts wrap, and what the compiler adds to a frame is a parameter.
- PiPartition.PiTest: floating-point rounding; the barrier is the one of SpinBarrier.
- The remaining mremap variants (1xx, 2xx, 3xx, x01), which repeat these scenarios with other region kinds, and the architecture-dependent wrapped sizes.
- Single-system-call suites, alias files, socket, epoll, perf-event, freeze and rusage tools.
- Option parsing, printing, temporary files, driver registration, thread and process creation failures, real time.
- The signal and pipe handshake around the migration target; only the choice of CPU is modelled.
