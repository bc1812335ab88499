# Verified model of the Bharat-OS boot, scheduling and tooling cores

This project models the parts of the repository that decide what the system believes at boot and who runs next, and
proves what those parts promise. `dafny verify dfyconfig.toml` checks everything.

| modules | what they model |
|---|---|
| `Devicetree`, `FdtReader`, `FdtRefinement`, `FdtNesting`, `MachineTree` | the flattened devicetree reader as a stack machine over bytes, refining a recursive walk of the tree (chapter 5 of the Devicetree Specification) |
| `MinimalDtb`, `DtbCompact` | the devicetree writer of the Renode runner and the packager's devicetree compactor |
| `BootModules`, `BootRoot`, `BootBundle` | the loader's module table with its growing expansion loop, and the packager's bundle writer |
| `RunQueue`, `Fairness`, `Telemetry` | the virtual-runtime heap, fairness and service over whole runs, the saturating fixed-point telemetry |
| `Atomic64`, `AtomicLaws`, `Umoddi3` | the lock-based 64-bit atomics as an interleaving of single memory accesses, and the remainder loop |
| `SmpBoot`, `SmpOutcome` | the boot handshake between the boot processor (BSP) and the application processors (APs) |
| `ElfParser`, `ElfLoadPlan`, `ElfImage` | the two passes over the program headers and the load planner |
| `SchedStub`, `SchedLaws`, `Scheduler` | the scheduler stub as functions of its state, and in place on the slot array and the suggestion ring |
| `HalTimer` | timer unit conversion in 64-bit arithmetic |
| `CpuFeatures`, `CpuCaps`, `HwCaps`, `FeatureLaws` | CPU feature aggregation with its freeze protocol in three layers |
| `DriverMatch` | driver matching and the binding registry |
| `BootLog` | the boot-event monitor of the log checker |
| `Bytes`, `Bits`, `Arith` | byte strings, single bits of words, quotients and powers of two |

Code that updates state is modelled in place: classes with the source's fields, arrays where the source has fixed
tables, loops with invariants. Each such method is proved equal to a function of the old state, and the whole-run
results are lemmas about that function. Concurrent code is a machine whose schedules are arbitrary sequences of atomic
steps.

Fixed-width arithmetic is written out where it can matter (32-bit sizes and roundings in the devicetree reader, 64-bit
telemetry and timer products, the int offset product of the ELF parser, virtual runtimes modulo 2^64).

## What turned out differently from the documentation or from first expectation

- Cell counts are inherited from the parent node, where the Devicetree Specification gives defaults; a cpu's hardware
  id keeps the low 32 bits of its `reg` address. The model follows the code.
- The recorded cycles-per-instruction ratio can be one too high on the coarse branch, never too low
  (`RatioRoundedUp`); `ExactRatioIff` and `ExactDivisorIff` say exactly when.
- The packager states the root's name length in characters and the loader checks it in bytes, so a root whose name has a
  character of more than one byte is refused (`RootNameRefused`); `AcceptableNames` says exactly which names pass.
- A compare-exchange that loses can return before the winner does (`LoserReturnsFirst`); `OneWinner` says that the
  success is reported exactly when the winner's call has completed.
- A FAILED boot record is not final after a timeout (`LateArrival`); `FailedForGoodIff` says exactly when it is.
- The entry offset product of the ELF parser can leave 32-bit int for images beyond 2 GiB (`OverflowExists`); the model
  returns a separate outcome there, and the contracts say exactly when. The planner's own alignment check never fires
  (`AlignmentCheckIsRedundant`).
- The timer conversions are exact only while their products fit 64 bits; `TicksExact` and `NsExact` give the exact
  conditions, a deadline is early exactly otherwise (`EarlyIffOverflow`, `OverflowHappens`), and the round trip needs a frequency of at most
  1 GHz (`RoundTripIff`).
- Earliest deadline first can pass over every deadline when some ready threads have none (`DeadlinePassedOver`);
  `EdfExact` says exactly when it selects the earliest.
- Once both feature layers are final, a second boot record takes the architecture layer's system answers away for good
  (`AnswersLost`, `LateBootIsFinal`); they survive exactly the runs that set none (`AnswersSurviveIff`).

## Model

| member | source | states |
|---|---|---|
| `FdtRefinement.ReaderRefinesWalk` | core/hal/common/fdt_parser.c:357-641 | for every well-formed devicetree held by a blob, at any nesting the reader allows, the stack machine returns 0 and leaves exactly what the recursive walk of the tree collects |
| `FdtRefinement.ReaderFindsAll` | core/hal/common/fdt_parser.c:416-641 | with room in the tables, the result is the memory regions, the densely numbered CPUs with only number 0 as boot processor, and the interrupt controllers of the tree, in node-closing order |
| `FdtRefinement.RunForest` | core/hal/common/fdt_parser.c:378-638 | the central induction: from any state whose cursor stands at a serialised forest, the token machine continues behind it with the same stack and the walk of that forest recorded |
| `FdtRefinement.RunProps` | core/hal/common/fdt_parser.c:552-634 | a serialised property list is consumed whole, and the open frame then says of the node what its properties say |
| `FdtRefinement.CloseAgrees` | core/hal/common/fdt_parser.c:416-551 | closing a frame records what the walk records, `reg` decoded with the parent's cell counts |
| `FdtRefinement.ScanCompatLists` | core/hal/common/fdt_parser.c:610-634 | the scan over a `compatible` value finds a GIC or PLIC identifier exactly when one of its NUL-terminated strings is one |
| `Devicetree.WalkCollects` | core/hal/common/fdt_parser.c:416-475 | the walk appends to the tables exactly the lists of memory nodes, cpu nodes and interrupt controllers, each defined on the tree alone |
| `FdtReader.SwapReadsBigEndian` | core/hal/common/fdt_parser.c:17-20 | a little-endian load followed by the byte swap is the big-endian word of the format |
| `FdtReader.BoundedStrnlen` | core/hal/common/fdt_parser.c:52-65 | the bounded scan returns the position of the first NUL, or that there is none, or that it left the blob |
| `FdtReader.ScanCompatible` | core/hal/common/fdt_parser.c:610-634 | the string loop computes the flags of the list scan, and stops on an unterminated tail |
| `FdtReader.OpenNode` | core/hal/common/fdt_parser.c:385-415 | a begin token pushes one frame with the parent's cell counts in place, or fails as the token step does |
| `FdtReader.CloseNode` | core/hal/common/fdt_parser.c:416-551 | an end token records the node in the discovery object and pops its frame, or fails as the token step does |
| `FdtReader.ReadProp` | core/hal/common/fdt_parser.c:552-634 | a property token updates only the open frame, as the token step does |
| `FdtRefinement.SetPropAgrees` | core/hal/common/fdt_parser.c:575-634 | one property sets exactly what its name says: the cell counts from its first word, `reg` to its value, the GIC and PLIC marks from the strings it lists, and nothing else |
| `FdtReader.ParseDiscovery` | core/hal/common/fdt_parser.c:357-641 | the loop over cursor, frame array and discovery object agrees with the token machine on every blob: same return code, same discovery, a blob overrun exactly where the machine reports one |
| `MachineTree.MachineReadsBack` | core/hal/common/fdt_parser.c:404-475 | for every list of devices and processors within the tables, printed under any cell counts, the reader returns 0 and lists exactly the memory ranges, the processors numbered in order with the first as boot processor, and the GIC and PLIC controllers, by the literal names and identifiers of the bindings |
| `MachineTree.CpusReadBack` | core/hal/common/fdt_parser.c:409-450 | any list of up to 256 ids printed as `cpu@` nodes below /cpus, with any unit addresses, is read back as exactly Cpu(i, id i, i == 0) |
| `MachineTree.ControllerReadsBack` | core/hal/common/fdt_parser.c:451-475 | a node with two (address, size) pairs that lists one of the four GIC identifiers is a GIC at the first pair with the second address as redistributor; one that lists riscv,plic0 is a PLIC; any other is nothing |
| `MachineTree.CpusIsNoCpu` | core/hal/common/fdt_parser.c:409-410 | nodes named cpus or cpu-map give no processor, whatever their `reg` |
| `MachineTree.PairsReadBack` | core/hal/common/fdt_parser.c:416-438 | `reg` printed as any list of pairs under 1 or 2 address cells and 0 to 2 size cells decodes to the first pair, and to the second address exactly when there is one |
| `MachineTree.TextsAreEntries` | core/hal/common/fdt_parser.c:610-634 | the strings of a `compatible` value made of NUL-terminated texts are exactly those texts |
| `FdtNesting.NestingLimit` | core/hal/common/fdt_parser.c:385-402 | a chain of nested nodes with any names is read exactly up to 31 levels; deeper ones are refused with -1 and nothing is recorded |
| `FdtNesting.SecondCall` | core/hal/common/fdt_parser.c:357-377 | a call succeeds exactly when it leaves the discovery marked as parsed on a blob with the magic word, a further call then changes nothing and succeeds, and a blob without the magic word is refused unread |
| `MinimalDtb.NamesItself` | tools/runners/runner_renode.py:111-114 | a text appended to a strings block is what its offset names to the reader, whatever stands before and after it |
| `MinimalDtb.Builder.OpenNode` | tools/runners/runner_renode.py:132-137 | appends the begin token, the name and its padding |
| `MinimalDtb.Builder.AddProp` | tools/runners/runner_renode.py:142-146 | appends the property token, length, name offset, value and padding |
| `MinimalDtb.BuildMinimalDtb` | tools/runners/runner_renode.py:102-193 | succeeds exactly on arguments that fit 64 bits, and then writes the image of the two-node tree |
| `MinimalDtb.ImageHeader` | tools/runners/runner_renode.py:171-193 | the header words of a printed image locate its structure and strings blocks |
| `MinimalDtb.ImageHolds` | tools/runners/runner_renode.py:171-193 | the image printed from any forest and any strings block holds that forest for the reader |
| `MinimalDtb.PrintedTreeReadsBack` | tools/runners/runner_renode.py:130-193 | round trip for every well-formed devicetree below 4 GiB: print, read, get what the walk collects |
| `MinimalDtb.MinimalDtbReadsBack` | tools/runners/runner_renode.py:148-193 | the kernel's reader finds in the runner's devicetree exactly the one region (ram_base, ram_size), for all arguments, with or without an initrd |
| `MinimalDtb.ChosenNamesInitrd` | tools/runners/runner_renode.py:160-170 | with a start and a size given, `chosen` holds the start under linux,initrd-start and start plus size under linux,initrd-end; otherwise neither |
| `DtbCompact.CompactQemuDtb` | tools/package/packager.py:14-49 | the reservation scan and the trimming compute the compaction, or its error |
| `DtbCompact.CompactAccepts` | tools/package/packager.py:14-45 | a blob is compacted exactly when it has the magic word, a total size from 40 to the file size, an all-zero reservation entry inside it, and structure and strings blocks inside it |
| `DtbCompact.ReserveEndMeaning` | tools/package/packager.py:31-39 | the reservation scan ends behind the first all-zero 16-byte entry, and fails only when none is left inside the blob |
| `DtbCompact.CompactTrims` | tools/package/packager.py:41-49 | only bytes 4 to 7 differ from the input's prefix, and they hold the exact new length |
| `DtbCompact.BlocksKept` | tools/package/packager.py:31-49 | structure, strings and reservation blocks survive byte for byte, and the length is no more than one of them or the header needs |
| `DtbCompact.FirstEntryNonZero` | tools/package/packager.py:31-39 | a reservation block claimed to start in the header's first eight bytes never terminates there, whatever the total size |
| `DtbCompact.CompactIdempotent` | tools/package/packager.py:14-49 | compacting twice is compacting once, for every blob the compactor accepts |
| `DtbCompact.RunKept` | core/hal/common/fdt_parser.c:378-638 | the token machine runs alike on a blob and its compaction from any state behind the size field |
| `DtbCompact.CompactParsesAlike` | core/hal/common/fdt_parser.c:365-378 | a blob and its compaction parse to the same result, well formed or not, whenever reading the compacted one stays inside it |
| `DtbCompact.CompactTreeParsesAlike` | tools/package/packager.py:14-49 | for every well-formed devicetree, padded or compacted, the reader returns 0 and the same discovery |
| `BootModules.BootInfo.AddModule` | core/boot/src/boot_info.c:64-84 | appends one descriptor or returns the code of the check that failed, leaving the table as it was |
| `BootModules.BootInfo.VisitContainerAt` | core/boot/src/boot_info.c:211-258 | strips a valid header in place, appends the rest of a bundle, and degrades the boot record on an invalid one |
| `BootModules.BootInfo.VisitRawAt` | core/boot/src/boot_info.c:259-268 | in place, the raw visit that `RootIsListed`, `AcceptedTable` and `RawTable` speak about: a raw module under one of the two names becomes the init payload and takes the canonical name; any other is left alone |
| `BootModules.BootInfo.FinalizeModules` | core/boot/src/boot_info.c:130-272 | the loop whose bound grows terminates and computes the finalisation, on any memory and any table |
| `BootModules.FinaliseSafe` | core/boot/src/boot_info.c:176-269 | whatever memory holds, expansion keeps descriptors disjoint and inside the modules the loader registered |
| `BootModules.FinaliseConserves` | core/boot/src/boot_info.c:223-251 | payload bytes and stripped headers together account for every byte registered |
| `BootRoot.RootIsListed` | core/boot/src/boot_info.c:176-269 | on any memory and any table, the init payload of an accepted table is the earlier one or the exact range of one of its final descriptors |
| `BootRoot.AcceptedTable` | core/boot/src/boot_info.c:211-268 | in an accepted table every descriptor is the payload behind a header whose every checked field is valid, or a module without a container, and the init payload is the range of the last descriptor that is a root, else the earlier one |
| `BootRoot.AppendedAreServices` | core/boot/src/boot_info.c:223-244 | every descriptor appended by expansion is the payload of a container of kind 3, so only a registered module can be the root |
| `BootRoot.RawTable` | core/boot/src/boot_info.c:259-268 | a table without containers is accepted with all ranges unchanged; exactly the mapped modules of at least 128 bytes called services/init or initrd are renamed, and the last of them is the init payload, else the earlier one stays |
| `BootBundle.WriteBundle` | tools/package/packager.py:161-212 | writes the containers of root and services in order, the root with its name length in characters and each service in bytes, exactly when every field fits |
| `BootBundle.AcceptableNames` | tools/package/packager.py:172-180 | a service is acceptable with any name of 1 to 31 bytes; a root exactly when in addition every character of its name takes one byte |
| `BootBundle.RootNameRefused` | tools/package/packager.py:172-180 | a name with a two-byte character that is accepted for a service and refused for a root |
| `BootBundle.HeaderReadsBack` | tools/package/packager.py:179-183 | the header fields the loader reads are the ones the packager wrote |
| `BootBundle.PackagedHeaders` | tools/package/packager.py:161-205 | in memory a packaged root has kind 1 and its name length in characters, a service kind 3 and its name length in bytes, each in the word the loader reads |
| `BootBundle.ValidIffAcceptable` | core/boot/src/boot_info.c:211-221 | a printed header passes validation exactly when the payload is not empty, the name ends where the header says within 31 bytes, and the range fits 64 bits |
| `BootBundle.ExpandBundle` | core/boot/src/boot_info.c:176-269 | the induction over the growing loop: the whole bundle is accepted exactly when all its items are, and each becomes one descriptor |
| `BootBundle.DescriptorFacts` | core/boot/src/boot_info.c:246-251 | descriptor k holds exactly the bytes of payload k and its name, and the ranges follow each other with one header between |
| `BootBundle.SizesTile` | tools/package/packager.py:161-212 | 128 plus payload size, summed over the descriptors, is the size of the bundle |
| `BootBundle.BundleRoundTrip` | core/boot/src/boot_info.c:176-269 | a printed bundle is accepted if and only if every item is acceptable and the table has room; then there is one descriptor per container in order, and the root is the init payload |
| `BootBundle.BundleDisjoint` | core/boot/src/boot_info.c:223-251 | any two descriptors of a bundle are at least one header apart |
| `RunQueue.TaskHeap.SiftUp` | staging/ai/ai_sched.c:374-385 | restores the heap order when one node may be too small, moving only nodes of the heap |
| `RunQueue.TaskHeap.SiftDown` | staging/ai/ai_sched.c:387-409 | restores the heap order when one node may be too large, moving only nodes of the heap |
| `RunQueue.TaskHeap.Insert` | staging/ai/ai_sched.c:411-418 | keeps the heap order and adds exactly the task, except that a full heap drops it |
| `RunQueue.TaskHeap.ExtractMin` | staging/ai/ai_sched.c:420-434 | keeps the heap order and removes exactly one task, of least vruntime; none exactly when empty |
| `RunQueue.RootIsMin` | staging/ai/ai_sched.c:420-434 | the root of an ordered heap is minimal, by induction along the path to it |
| `RunQueue.ChargeTask` | staging/ai/ai_sched.c:437-450 | adds the number of whole weights in the product to a task that is not queued, modulo 2^64, and leaves the queue ordered |
| `RunQueue.ChargeMeaning` | staging/ai/ai_sched.c:443-444 | a number d is the charge exactly when weight * d <= work < weight * (d + 1), with work the 64-bit product and weight at least 1 |
| `RunQueue.TakeLeast` | staging/ai/ai_sched.c:437-458 | takes a task of least vruntime and conserves the others |
| `RunQueue.SelectAndUpdate` | staging/ai/ai_sched.c:437-458 | the task that ran grows by work over weight rounded down, where work is execution time times system weight and the weight is at least 1, modulo 2^64; it is requeued, one of least vruntime is returned, and the multiset of tasks is conserved up to the drop when full |
| `Fairness.RunIsFair` | staging/ai/ai_sched.c:437-458 | in every run with charges of at most D and initial runtimes within D, all runtimes stay within D and the running task is minimal after every call |
| `Fairness.LagFalls` | staging/ai/ai_sched.c:437-458 | the sum of how far the other tasks lie at or below a task falls with every call that does not return it |
| `Fairness.NoStarvation` | staging/ai/ai_sched.c:373-458 | after any point of such a run with charges of at least 1, every task is returned by one of the next (n - 1) * (D + 1) + 1 calls |
| `Fairness.GainIsWork` | staging/ai/ai_sched.c:443-450 | over any prefix of a run, what a task has gained in virtual runtime is its work over its weight, up to one unit per charge |
| `Fairness.WeightedShare` | staging/ai/ai_sched.c:437-458 | in every run any two tasks have received work in proportion to their weights, within their starting gap, D and one unit per charge, after every call |
| `Fairness.CallHeap` | staging/ai/ai_sched.c:437-458 | one heap call changes only the task handed back and returns a minimum over all tasks |
| `Fairness.Call` | staging/ai/ai_sched.c:437-458 | one heap call is one step of the selection rule the run lemmas speak about |
| `Fairness.Drive` | staging/ai/ai_sched.c:437-458 | a whole run on the heap itself is fair throughout, any (n - 1) * (D + 1) + 1 successive calls return every task, and work over weight of any two tasks differs by at most their starting gap, D and one unit per charge after every call |
| `Telemetry.HundredthsExact` | staging/ai/ai_sched.c:67-101 | the ratio is the saturated floor of 100 * a / b, or one more where the coarse branch ran, for all 64-bit inputs with b > 0 |
| `Telemetry.RecordedExact` | staging/ai/ai_sched.c:67-101 | the recorded 32-bit ratio is never below the true one, at most one above, and exact on the fine branch |
| `Telemetry.NoOverflow` | staging/ai/ai_sched.c:67-101 | no product overflows and no divisor is zero on either branch |
| `Telemetry.CoarseBounds` | staging/ai/ai_sched.c:84-86 | dividing by b / 100 is off by at most one, and only upwards |
| `Telemetry.CoarseExact` | staging/ai/ai_sched.c:84-86 | the coarse division is the floor if and only if its remainder makes up for the remainder of the divisor by 100 |
| `Telemetry.ExactRatioIff` | staging/ai/ai_sched.c:67-101 | the recorded ratio is the exact floor if and only if the remainder fits the fine branch or the coarse one rounds down |
| `Telemetry.ExactDivisorIff` | staging/ai/ai_sched.c:67-101 | a divisor is exact for all dividends if and only if it is a multiple of 100 or too small for the coarse branch; otherwise the dividend just below it records one too many |
| `Telemetry.RatioRoundedUp` | staging/ai/ai_sched.c:67-101 | one too many is recorded for the largest 64-bit divisor and the dividend just below it |
| `Telemetry.EstimateExact` | staging/ai/ai_sched.c:180-201 | the instruction estimate is exactly the saturated floor of cycles * ipc / 100 for every non-zero 32-bit ipc, without intermediate overflow |
| `Telemetry.SliceCycles` | staging/ai/ai_sched.c:157-161 | the cycles of a slice are the saturated product |
| `Telemetry.BaselineIpc` | staging/ai/ai_sched.c:302-318 | every tick count calibrates into 10 to 300 |
| `Telemetry.ActiveIpc` | staging/ai/ai_sched.c:167-178 | every blend of calibrated values stays in 10 to 300 |
| `Telemetry.BaselineMeaning` | staging/ai/ai_sched.c:302-318 | between 10 and 300 the baseline is the number of times the ticks go into 10000; 300 and 10 exactly beyond those bounds, and 50 without ticks |
| `Telemetry.ActiveMeaning` | staging/ai/ai_sched.c:167-178 | class 2 takes the memory rate, class 1 the average rounded down, any other the arithmetic rate, an uncalibrated rate counting as 50 |
| `Telemetry.ComplexityThresholds` | staging/ai/ai_sched.c:111-129 | the class is 2 exactly from a window sum of 2010, 1 exactly from 1010 below that |
| `Telemetry.AiContext.UpdateTelemetry` | staging/ai/ai_sched.c:49-109 | totals saturate, the ratio lands in the window slot at the index, the index wraps at ten, and a zero instruction count changes nothing else |
| `Telemetry.AiContext.PredictAndScale` | staging/ai/ai_sched.c:111-129 | classifies the average of the ten window samples |
| `Telemetry.AiContext.CollectSample` | staging/ai/ai_sched.c:131-239 | uses the counters when available, otherwise the exact estimate; records totals, ratio, window, utilisation within one of the true percentage, depth, switches and the class of the new window |
| `Atomic64.Reachable` | core/kernel/src/atomic64_fallback.c:11-56 | every state of every interleaving of any number of threads satisfies the protocol invariant |
| `Atomic64.MutualExclusion` | core/kernel/include/spinlock.h:16-25 | at most one thread is in the critical section, and only while the lock is set |
| `Atomic64.Linearisable` | core/kernel/src/atomic64_fallback.c:70-120 | lock order is a linearisation: every completed call returned, and wrote back to `expected`, what executing the log in order gives at its place, and took effect between its call and its return; the `AtomicLaws` rows say what that is for each operation |
| `Atomic64.RealTimeOrder` | core/kernel/src/atomic64_fallback.c:11-56 | a call that returned before another was made comes before it in the log, and no two share a place |
| `Atomic64.NoLostUpdate` | core/kernel/src/atomic64_fallback.c:70-120 | whenever the lock is free, memory is the result of executing every logged call in order, both halves of each word |
| `Atomic64.CounterInMemory` | core/kernel/src/atomic64_fallback.c:70-120 | in every run, once the lock is free, a word only added to and read holds its initial value plus every increment, modulo 2^64 |
| `Atomic64.NoDeadlock` | core/kernel/src/atomic64_fallback.c:11-56 | a thread in a call always has its next step enabled, and when it can only spin the holder can step |
| `AtomicLaws.ExactlyOnce` | core/kernel/src/atomic64_fallback.c:11-56 | in every run, when no call is under way each place in the log belongs to exactly one completed call |
| `AtomicLaws.ElectionAnswers` | core/kernel/src/atomic64_fallback.c:87-110 | on a word only loaded and compare-exchanged away from its initial value, the first compare-exchange returns true, every other completed one returns false with the first one's value in `expected`, and a load sees the old value before it and the new one after |
| `AtomicLaws.OneWinner` | core/kernel/src/atomic64_fallback.c:87-110 | however many threads compete, at most one completed compare-exchange reports success; as soon as any has completed, memory holds the winner's value whenever the lock is free, every completed loser has learnt it, and the success has been reported exactly when the winner's own call has completed |
| `AtomicLaws.LoserReturnsFirst` | core/kernel/src/atomic64_fallback.c:87-110 | a schedule of two threads after which the loser has completed and the winner has not |
| `AtomicLaws.CounterAnswers` | core/kernel/src/atomic64_fallback.c:19-35 | on a word only added to and read, fetch-add and load return the initial value plus every increment logged before, add-fetch that plus its own |
| `AtomicLaws.TicketsDistinct` | core/kernel/src/atomic64_fallback.c:19-27 | any two completed additions of one hold different tickets, counted from the initial value modulo 2^64; fetch-add returns the ticket, add-fetch one more |
| `AtomicLaws.TicketsComplete` | core/kernel/src/atomic64_fallback.c:19-27 | when no call is under way, each ticket from the initial value on belongs to exactly one completed call, and memory holds the next one |
| `AtomicLaws.ExchangeHandsOver` | core/kernel/src/atomic64_fallback.c:70-86 | on a word only stored, exchanged and read, every exchange and load returns what the last store or exchange before it put there, else the initial value; memory holds the last one |
| `AtomicLaws.FlagAnswers` | core/kernel/src/atomic64_fallback.c:38-56 | on a word only or-ed, and-ed and read, every completed call returns each bit set exactly when it was set and not cleared since, and memory likewise |
| `Umoddi3.Umod` | core/kernel/src/atomic64_fallback.c:58-68 | the 64-bit loop returns n mod d for all n and all d > 0, also above 2^63, and 0 for d = 0 |
| `Umoddi3.Round` | core/kernel/src/atomic64_fallback.c:58-68 | one round keeps the remainder of the prefix read so far and its shift loses no bit |
| `SmpBoot.ContinueKeepsInv` | core/boot/discovery/smp_boot.c:189-424 | every step of every interleaving of BSP and APs keeps the boot invariant |
| `SmpBoot.ApPublishesInOrder` | core/boot/discovery/smp_boot.c:349-424 | an AP publishes a prefix of the boot order, possibly ended by FAILED, and passes the gate only after reading the full readiness mask |
| `SmpBoot.AllOnlineIsTrue` | core/boot/discovery/smp_boot.c:283-317 | when the all-online path returns, every requested CPU is ONLINE at that moment, the online mask is the requested mask and the failed mask is 0 |
| `SmpBoot.OnlineIsStable` | core/boot/discovery/smp_boot.c:217-332 | an ONLINE record stays ONLINE through every step but the BSP's own store of FAILED to it |
| `SmpBoot.RunToOnline` | core/boot/discovery/smp_boot.c:349-424 | with the mask published, a running AP can still reach ONLINE whatever its record says |
| `SmpBoot.FailedForGoodIff` | core/boot/discovery/smp_boot.c:319-332 | after a timeout a FAILED record is final if and only if its AP is no longer running, and can become ONLINE if and only if it is |
| `SmpBoot.LateArrival` | core/boot/discovery/smp_boot.c:319-332 | an interleaving after which the BSP has given up on a CPU and marked it FAILED, and a continuation after which it is ONLINE |
| `SmpBoot.MaskBits` | core/boot/discovery/smp_boot.c:137-146 | bit k of the accumulated mask is set exactly when CPU k is ONLINE |
| `SmpBoot.AllOnlineMask` | core/boot/discovery/smp_boot.c:130-146 | with every CPU below the limit ONLINE the loop accumulates exactly the mask for the count, also at 64 and more |
| `SmpOutcome.DegradedReport` | core/boot/discovery/smp_boot.c:137-160 | whatever the APs do meanwhile, the online mask of the degraded path covers every CPU that was ONLINE when its reading began and names only CPUs that are ONLINE when it ends; the failed mask is the rest of the requested CPUs |
| `SmpOutcome.EarlyReaderNeverOnline` | core/boot/discovery/smp_boot.c:362-372 | an AP that reads the readiness mask before it is published never comes ONLINE in any continuation |
| `SmpOutcome.SuccessIsReachable` | core/boot/discovery/smp_boot.c:217-317 | for every machine size and request there is a schedule on which the BSP returns on the all-online path with the requested mask |
| `ElfParser.HeaderInside` | core/lib/elf/elf_parser.c:89-151 | every program header of an accepted image lies inside it |
| `ElfParser.CountLoads` | core/lib/elf/elf_parser.c:153-182 | the counting pass returns the number of PT_LOAD headers, and names exactly the images whose entry offset leaves 32-bit int |
| `ElfParser.ExtractLoads` | core/lib/elf/elf_parser.c:184-260 | for any capacity, returns exactly the first PT_LOAD headers up to it in table order, fails exactly when one of those is bad, and names exactly when an overflowing entry offset is reached |
| `ElfParser.LoadsAreTheLoadHeaders` | core/lib/elf/elf_parser.c:184-260 | the listed headers are the PT_LOAD entries of the table, in order, none left out |
| `ElfParser.BitTrick` | core/lib/elf/elf_parser.c:245-248 | the mask test accepts exactly the powers of two |
| `ElfParser.SmallImageNeverOverflows` | core/lib/elf/elf_parser.c:165-165 | images of at most 2 GiB never overflow the entry offset |
| `ElfLoadPlan.CheckSegments` | core/lib/elf/elf_load_plan.c:130-185 | succeeds exactly when every segment is placed in the window with no write and execute together, and finds the entry exactly when an executable segment holds it |
| `ElfLoadPlan.CheckOverlap` | core/lib/elf/elf_load_plan.c:187-200 | the nested loop accepts exactly the lists in which no two segments overlap, an empty segment strictly inside another counting as overlapping |
| `ElfLoadPlan.GenerateLoadPlan` | core/lib/elf/elf_load_plan.c:62-207 | for every byte sequence, success if and only if the image is loadable, and then the plan lists exactly its PT_LOAD headers in order; `PlanPrinted` states both in printed values |
| `ElfLoadPlan.PlanIsSafe` | core/lib/elf/elf_load_plan.c:130-200 | in a successful plan every segment lies in file and window, none is writable and executable, offsets are congruent modulo alignment, and no address belongs to two |
| `ElfLoadPlan.AlignmentCheckIsRedundant` | core/lib/elf/elf_load_plan.c:168-170 | after truncation to 32 bits the planner's own alignment check never fails on an extracted segment |
| `ElfLoadPlan.ProtBits` | core/lib/elf/elf_load_plan.c:172-175 | the protection bits are user plus the three permission flags |
| `ElfLoadPlan.OverflowExists` | core/lib/elf/elf_parser.c:165-165 | an accepted header whose entry offset overflows 32-bit int exists, and only beyond 2 GiB |
| `ElfImage.PhdrReadsBack` | core/lib/elf/elf_parser.c:67-87 | a program header printed from the gABI table, 32-bit or 64-bit, reads back with every field as printed |
| `ElfImage.SummaryReadsBack` | core/lib/elf/elf_parser.c:33-65 | an ELF header printed from the gABI table, in either class, gives the printed entry point, table offset, entry size and count |
| `ElfImage.PrintedIsLaid` | core/lib/elf/elf_parser.c:33-87 | header, program-header table and file contents printed one behind the other are an image that holds those headers |
| `ElfImage.LoadableIff` | core/lib/elf/elf_load_plan.c:62-207 | the planner's acceptance condition equals one on printed values alone: identification, machine, type and version, table bounds, 1 to 16 loadable headers, file and window ranges, power-of-two alignment, no write with execute, no overlap, an executable entry |
| `ElfImage.PlanPrinted` | core/lib/elf/elf_load_plan.c:62-207 | for every image that holds any list of printed headers, the planner succeeds if and only if the printed values are acceptable, and the plan then holds exactly the printed entry and, per loadable header in order, the printed values |
| `SchedStub.ScanRoundRobin` | core/kernel/src/sched_stub.c:139-157 | round robin takes the first ready slot of the cyclic scan |
| `SchedStub.PickIsBest` | core/kernel/src/sched_stub.c:139-173 | outside round robin a ready thread is selected whenever there is one: of highest priority, or of earliest deadline when every ready thread has one |
| `SchedStub.EdfExact` | core/kernel/src/sched_stub.c:159-171 | with some deadline to honour, the selected thread has the earliest one if and only if every ready thread without a deadline comes after one with a deadline and does not outrank the earliest of those before it |
| `SchedStub.DeadlinePassedOver` | core/kernel/src/sched_stub.c:159-171 | a table in which a thread without a deadline is selected over one with a deadline |
| `SchedStub.ApplyInv` | core/kernel/src/sched_stub.c:187-718 | every operation, the direct priority and node setters included, keeps: each in-use running thread is the current one, thread ids are distinct and already issued |
| `SchedStub.SingleRunning` | core/kernel/src/sched_stub.c:139-718 | after any sequence of operations from boot at most one in-use thread is running, and it is the current one |
| `SchedStub.PickIsReady` | core/kernel/src/sched_stub.c:139-173 | under every policy only a ready thread is selected, and none exactly when no thread is ready |
| `SchedStub.TickWakesExactly` | core/kernel/src/sched_stub.c:420-452 | one tick ends a sleep exactly when its wake time has come, whatever suggestions it applies and whoever it switches to |
| `SchedStub.SleepsUntilDue` | core/kernel/src/sched_stub.c:399-452 | over any run of ticks a sleeper sleeps until its wake time and not longer; one killed by a suggestion before it is due is never woken |
| `SchedStub.TickPreempts` | core/kernel/src/sched_stub.c:434-445 | under a priority policy, with woken threads and applied suggestions counted in, a tick with a better ready thread ends with a running current thread that no ready thread outranks |
| `SchedStub.YieldAdvances` | core/kernel/src/sched_stub.c:139-205 | a yield that does not select a ready thread brings the scan start closer to it |
| `SchedStub.RoundRobinServes` | core/kernel/src/sched_stub.c:139-205 | in any run of yields under round robin a ready thread runs within as many yields as its cyclic slot distance |
| `SchedLaws.SleepDuration` | core/kernel/src/sched_stub.c:399-407 | a thread that sleeps for m milliseconds sleeps through exactly the ticks before the m-th, whoever else runs; a sleep of 0 ends at the next tick |
| `SchedLaws.SliceExpires` | core/kernel/src/sched_stub.c:434-452 | an undisturbed thread runs for exactly the rest of its slice, charged one unit per tick, and then hands over to a ready thread if there is one |
| `SchedLaws.YieldHandsOver` | core/kernel/src/sched_stub.c:187-205 | a yield promotes one ready thread, puts the running one back, counts both switches and leaves every other slot alone; without a ready thread it changes nothing |
| `SchedLaws.BlockedUntilWoken` | core/kernel/src/sched_stub.c:292-299 | a blocked thread stays blocked through any number of ticks, and a wake-up makes it ready and clears its wake time |
| `SchedLaws.CreateStartsFresh` | core/kernel/src/sched_stub.c:349-380 | a new thread takes the lowest free slot, ready with priority 1 and a full slice, under an id no thread has; refused exactly when the table is full |
| `SchedLaws.DestroyFreesSlot` | core/kernel/src/sched_stub.c:382-389 | destroying a thread frees its slot alone, a new thread can then be made, and the destroyed one is never selected |
| `SchedLaws.SuggestionTouchesTarget` | core/kernel/src/sched_stub.c:641-665 | a suggestion changes exactly the thread it names and only as it says: priority up to 31, an existing node, or removal |
| `SchedLaws.SuggestedPriorityLands` | core/kernel/src/sched_stub.c:667-689 | a suggested priority for a thread other than the current one is queued and in force when the next tick decides |
| `SchedLaws.SuggestLimit` | core/kernel/src/sched_stub.c:667-689 | the ring refuses exactly with 63 entries, and otherwise queues, yielding exactly for a priority or node suggestion about the current thread |
| `SchedLaws.InheritThenRestore` | core/kernel/src/sched_stub.c:567-583 | an inherited priority is the larger of the two, and restoring gives the base priority back whatever was inherited |
| `SchedLaws.SettersTouchOne` | core/kernel/src/sched_stub.c:590-626 | setting a priority or node changes that thread alone, to at most 31 or to an existing node |
| `SchedLaws.RunBounded` | core/kernel/src/sched_stub.c:349-718 | after any sequence of operations from boot no priority exceeds 31, no node is out of range and the ring holds at most 63, unless a higher priority is inherited |
| `Scheduler.RingPush` | core/kernel/src/sched_stub.c:667-679 | the ring is full exactly with 63 entries, and otherwise storing at the head appends to its content |
| `Scheduler.RingPop` | core/kernel/src/sched_stub.c:118-130 | the ring is empty exactly when head meets tail, and advancing the tail drops the oldest entry |
| `Scheduler.StubScheduler.FindSlotByTid` | core/kernel/src/sched_stub.c:63-75 | the first in-use slot with the id, or none |
| `Scheduler.StubScheduler.PickNextReady` | core/kernel/src/sched_stub.c:139-173 | the loop computes the selection the lemmas speak about |
| `Scheduler.StubScheduler.SwitchToSlot` | core/kernel/src/sched_stub.c:187-205 | demotes a running current thread, promotes the chosen one and counts the switch |
| `Scheduler.StubScheduler.Apply` | core/kernel/src/sched_stub.c:641-665 | applies a suggestion to the slot with the target id, if any |
| `Scheduler.StubScheduler.DrainSuggestions` | core/kernel/src/sched_stub.c:132-137 | empties the ring, applying the suggestions oldest first |
| `Scheduler.StubScheduler.YieldNow` | core/kernel/src/sched_stub.c:391-397 | drains, selects and switches |
| `Scheduler.StubScheduler.CreateThread` | core/kernel/src/sched_stub.c:349-380 | fills the first free slot with a fresh id, or reports a full table |
| `Scheduler.StubScheduler.DestroyThread` | core/kernel/src/sched_stub.c:382-389 | frees the first slot with the id, or reports that there is none |
| `Scheduler.StubScheduler.SleepNow` | core/kernel/src/sched_stub.c:399-407 | sets the wake time of the current thread and yields |
| `Scheduler.StubScheduler.WakeDueSleepers` | core/kernel/src/sched_stub.c:420-430 | wakes exactly the in-use sleepers whose time has come |
| `Scheduler.StubScheduler.TimerTick` | core/kernel/src/sched_stub.c:420-452 | wakes, drains, charges the current thread, preempts for a higher priority or yields at the end of the slice |
| `Scheduler.StubScheduler.EnqueueSuggestion` | core/kernel/src/sched_stub.c:667-688 | refuses at 63 entries, otherwise queues and yields when the suggestion concerns the current thread |
| `Scheduler.StubScheduler.Run` | core/kernel/src/sched_stub.c:139-718 | any sequence of operations on the slot array and the ring itself keeps every in-use running thread the current one |
| `HalTimer.TicksExact` | core/hal/common/hal_timer_common.c:48-66 | the 64-bit result is ceil(ns * hz / 10^9) if and only if neither the fractional product nor the result overflows |
| `HalTimer.NsExact` | core/hal/common/hal_timer_common.c:68-88 | the 64-bit result is floor(counter * 10^9 / freq) if and only if neither the fractional product nor the result overflows |
| `HalTimer.ModestFrequency` | core/hal/common/hal_timer_common.c:48-88 | below about 18 GHz only the size of the result matters |
| `HalTimer.DeadlineWithinATick` | core/hal/common/hal_timer_common.c:48-66 | a deadline is never early and less than one tick late |
| `HalTimer.TicksMonotone` | core/hal/common/hal_timer_common.c:48-66 | more nanoseconds never give fewer ticks |
| `HalTimer.ClockMonotone` | core/hal/common/hal_timer_common.c:68-88 | a later counter never reads earlier |
| `HalTimer.RoundTripExact` | core/hal/common/hal_timer_common.c:48-88 | up to 1 GHz, counter to nanoseconds to ticks gives the counter back if and only if the nanoseconds fit 64 bits |
| `HalTimer.RoundTripIff` | core/hal/common/hal_timer_common.c:48-88 | the round trip holds for all counters whose nanoseconds fit if and only if freq is at most 10^9 |
| `HalTimer.FirstTickLost` | core/hal/common/hal_timer_common.c:68-88 | above 1 GHz counter 1 comes back as 0 |
| `HalTimer.EarlyIffOverflow` | core/hal/common/hal_timer_common.c:48-66 | a deadline is early if and only if the fractional product or the result overflows |
| `HalTimer.OverflowHappens` | core/hal/common/hal_timer_common.c:48-88 | an early deadline and a wrong clock reading, both at 2^35 Hz |
| `CpuFeatures.AggregateMeaning` | core/hal/common/cpu_features.c:41-60 | the ALL word has a bit exactly when every present CPU has it, the ANY word exactly when some CPU has it |
| `CpuFeatures.FrozenAnswers` | core/hal/common/cpu_features.c:24-103 | whatever is called before and after the freeze, ALL holds exactly for features of every published CPU, ANY exactly for those of some, and no later call changes an answer |
| `FeatureLaws.TableIsPublished` | core/hal/common/cpu_features.c:24-39 | until the freeze, whatever was called, each entry is its CPU's last publication since the last restart, and empty without one |
| `FeatureLaws.AnswersFromCalls` | core/hal/common/cpu_features.c:24-91 | a frozen table answers from the calls before its freeze alone: ALL exactly for features in every published CPU's last publication, ANY exactly for those in some CPU's |
| `CpuFeatures.SystemMeaning` | core/hal/common/cpu_features.c:72-91 | the system queries of a frozen table in terms of the per-CPU queries |
| `CpuFeatures.FeatureTable.StartOver` | core/hal/common/cpu_features.c:24-32 | clears every CPU unless frozen |
| `CpuFeatures.FeatureTable.PublishCpu` | core/hal/common/cpu_features.c:34-39 | stores one CPU's set unless frozen, missing or out of range |
| `CpuFeatures.FeatureTable.FreezeAll` | core/hal/common/cpu_features.c:41-60 | the loop computes both aggregates and freezes, or fails when no CPU is present |
| `CpuCaps.ExportMeaning` | core/arch/common/cpu_caps_state.c:36-64 | the exported word has exactly the common features, each under its HAL number |
| `CpuCaps.ExportAggregate` | core/arch/common/cpu_caps_state.c:36-64 | exporting every CPU then aggregating equals aggregating then exporting, for any set of CPUs |
| `CpuCaps.FinalizeCommutes` | core/arch/common/cpu_caps_state.c:213-253 | a successful finalisation leaves the HAL with the export of the architecture's own aggregates |
| `CpuCaps.FinalizeOkIff` | core/arch/common/cpu_caps_state.c:213-253 | finalising succeeds exactly when neither layer nor the memory operations were frozen before and some CPU is known |
| `CpuCaps.SetApSynced` | core/arch/common/cpu_caps_state.c:201-211 | a CPU record reaches both layers alike until the HAL is frozen |
| `CpuCaps.SetBootSynced` | core/arch/common/cpu_caps_state.c:182-199 | the boot record restarts both layers alike until the HAL is frozen |
| `FeatureLaws.RecordsFromSteps` | core/arch/common/cpu_caps_state.c:182-211 | after any run over the three layers, the record of each CPU is the last one set since the last boot record, which belongs to CPU 0 |
| `CpuCaps.CapsState.SetBootCaps` | core/arch/common/cpu_caps_state.c:182-199 | the in-place update of records, presence and count is the boot step |
| `CpuCaps.CapsState.SetApCaps` | core/arch/common/cpu_caps_state.c:201-211 | the in-place update is the AP step, and each CPU is counted once |
| `CpuCaps.CapsState.AggregateRecords` | core/arch/common/cpu_caps_state.c:213-243 | the loop computes both aggregates over the present CPUs |
| `CpuCaps.CapsState.FinalizeSystem` | core/arch/common/cpu_caps_state.c:213-253 | the finalisation with all its error returns, including the rollback when the HAL refuses |
| `HwCaps.FrozenRecordIsTrue` | core/hal/common/hw_caps.c:28-79 | after any run over all three layers, a frozen record claims vectors exactly when every published CPU has usable vectors, and likewise atomics and crypto |
| `HwCaps.FrozenRecordComesFrom` | core/hal/common/hw_caps.c:28-79 | after any run a frozen record goes back to the first raw record and a later finalisation: IOMMU and CPU count are what discovery found, the CPU count else the raw one, other fields the raw record's |
| `HwCaps.FrozenForGood` | core/hal/common/hw_caps.c:28-79 | no further step of any layer changes a frozen record or the HAL table it was taken from |
| `HwCaps.LayersAgree` | core/arch/common/cpu_caps_state.c:182-253 | in any run of the architecture layer, at each successful finalisation the HAL aggregates are the export of the architecture's |
| `HwCaps.LateBootIsFinal` | core/arch/common/cpu_caps_state.c:182-253 | while the HAL is frozen and the architecture layer withdrawn, no further steps bring its system answers back and no finalisation succeeds |
| `HwCaps.AnswersSurviveIff` | core/arch/common/cpu_caps_state.c:182-253 | once both layers are final, the architecture layer's answers survive a run if and only if it sets no boot record, and then unchanged; the HAL's always do |
| `HwCaps.LateBootWithdraws` | core/arch/common/cpu_caps_state.c:182-253 | a boot record set after the freeze withdraws the answers, whatever follows |
| `HwCaps.AnswersLost` | core/arch/common/cpu_caps_state.c:182-253 | boot, finalise, boot: a run that loses them |
| `HwCaps.CapsRecord.PublishRawRecord` | core/hal/common/hw_caps.c:28-38 | accepted once, before anything else |
| `HwCaps.CapsRecord.PublishCpuRecord` | core/hal/common/hw_caps.c:44-65 | takes the CPU facts from the frozen ALL set, and waits for the freeze |
| `HwCaps.CapsRecord.FinalizeRecord` | core/hal/common/hw_caps.c:67-79 | adds what discovery found and freezes |
| `DriverMatch.ScoreIsLexicographic` | core/drivers/core/match.c:13-52 | the summed weights order drivers exactly as comparing compatible string, identifiers, class and fallback one after the other |
| `DriverMatch.ScoreByFields` | core/drivers/core/match.c:13-52 | the score from the raw fields: 1000, 500 or 250, 100, and 10 only when nothing else matches, where 0 and 0xFFFFFFFF name no identifier and 0 no class |
| `DriverMatch.SelectOutcome` | core/drivers/core/match.c:60-98 | the scan is ambiguous exactly when two drivers share the greatest (score, priority), empty exactly when none scores, and otherwise holds the unique greatest |
| `DriverMatch.OrderDoesNotMatter` | core/drivers/core/match.c:54-98 | any permutation of the table, gaps included, gives the same outcome and driver |
| `DriverMatch.Registry.CreateBinding` | core/drivers/core/binding.c:21-40 | takes the first free slot; fails exactly when all are taken |
| `DriverMatch.Registry.MatchDevice` | core/drivers/core/match.c:54-98 | 0 with one new binding to the unique winner, EBUSY, ENOENT or ENOSPC, each exactly in its case |
| `BootLog.Monitor` | tools/testing/check_boot_log.py:162-253 | the loop reports exactly the faults the history shows, event by event, reports none exactly on lawful traces, and ends with records that say what the history says |
| `BootLog.SilentIffLawful` | tools/testing/check_boot_log.py:204-250 | no rule objects anywhere in a trace if and only if the trace meets the declarative lifecycle predicate |
| `BootLog.RecordStep` | tools/testing/check_boot_log.py:207-249 | a record updated by one event again says what the history says |
| `BootLog.ObjectionsAreFaults` | tools/testing/check_boot_log.py:207-249 | the checks against a faithful record are the checks against the history |
| `BootLog.CheckEvent` | tools/testing/check_boot_log.py:207-249 | the branches report the objections in order and update the record |
| `BootLog.UnreadyServices` | tools/testing/check_boot_log.py:317-321 | the end-of-log check finds exactly the mentioned services with no READY since their last SPAWNED or CRASHED |

## Left out

- The user interface, display, emulator runners, flashing and the linters: glue and text search without a hard invariant.
- Capability, IPC, memory-manager and NUMA code beyond the calls named above: only declarations are available.
- In the devicetree reader: the framebuffer, PSCI and PCI branches and the older parser; the refinement is stated for well-formed trees, while `ParseDiscovery` and `CompactParsesAlike` cover every blob.
- CompactParsesAlike: needs structure and strings blocks that start behind the total-size field and a compacted blob the reader does not run off, because only then does the reader look at kept bytes alone; for well-formed trees `CompactTreeParsesAlike` needs only the offsets.
- FinalizeModules: memory is a total function of addresses and only address 0 can have no mapping; page-table behaviour is not modelled.
- Atomic64: memory is sequentially consistent, the lock is one atomic test-and-set, and a word is written low half first; weaker ordering is not modelled.
- SmpBoot: AP i uses record i, readiness may be published at any time, and time-outs are arbitrary choices; cache maintenance and the HAL calls themselves are not modelled.
- TicketsDistinct: counts tickets modulo 2^64, so two of them are the same word once 2^64 have been drawn.
- RunBounded: leaves out operations that inherit a priority above 31, because the source does not limit them.
- RoundRobinServes: speaks about runs of yields without other operations, as other operations can change who is ready.
- TickPreempts: says nothing about slice expiry, after which the next thread need not outrank the others; `SliceExpires` covers it for a thread nothing disturbs.
- PickIsBest: does not order mixed tables under earliest deadline first, because the order depends on the scan; `EdfExact` gives the exact condition.
- SchedStub: starts from an allocated, empty slot table (`sched_init` is not modelled), leaves out co-scheduling groups, processes, telemetry updates and the secure context switch; thread ids, ticks and counters do not wrap; core throttling is a flag nothing reads, and deadlines are set outside this file, so no operation of a run sets one.
- StubScheduler: a caller's thread pointer is the index of its slot, so pointers outside the table are not modelled.
- CpuCaps: the weak architecture export hook is the no-op of the common layer, and the architecture's private feature bits are carried but not exported.
- CreateBinding: binding ids do not wrap at 2^32, because a wrapped id of 0 would read as a free slot; probing, starting and removing bindings are not modelled.
- Monitor: works on parsed events; splitting lines, number conversion and the marker patterns are not modelled.
- CollectSample: the counter read-out is a parameter.
- WriteBundle: selecting services from the resolved graph and reading their files are not modelled.
- Drive: requires the absence of 64-bit wrap over the whole run, as the fairness promise does.
