# A verified model of the psutil port for Node

psutil answers questions about the system: processor times, memory, disks, network interfaces and
processes.  On Darwin it queues a native worker for each question, on Linux it mostly reads /proc.
This project models the parts that hold state, loops or arithmetic, as the code has them, and
proves what they keep.  Where the code departs from its evident intent, the departure is modelled
and the exact condition under which the intent holds is proved.

`dafny verify dfyconfig.toml` checks everything.

| file | part of the program |
|---|---|
| `Requests.dfy`, `Payloads.dfy`, `EntryPoints.dfy`, `NativeCounters.dfy` | the life of a native request, what five workers put into it, the arguments it starts from, and the two counters from arguments to answer |
| `CHeap.dfy`, `CStrings.dfy`, `Records.dfy` | the C heap, C strings, and the records that two workers pass from `execute` to `map` |
| `PidList.dfy`, `NetworkWorker.dfy`, `DiskWorker.dfy`, `ProcessWorker.dfy`, `MountOptions.dfy` | the Darwin workers |
| `DiskPartitions.dfy`, `ProcessCache.dfy`, `CpuPercent.dfy`, `Rounding.dfy` | callbacks that share state, and the percentages |
| `NetDev.dfy`, `DiskStats.dfy`, `DiskFiles.dfy`, `DiskRoundTrip.dfy`, `CpuTimes.dfy`, `LinuxCpuPercent.dfy`, `MemInfo.dfy`, `ProcessStat.dfy` | the readers of /proc |
| `Text.dfy`, `Numerals.dfy`, `Totals.dfy` | JavaScript's split, trim and number reading; sums over rows and over objects |

Things to know about the model:

- **Requests.** Memory is a map from addresses to workers and data blocks, and addresses are reused
  as soon as they are free.  libuv is assumed to run `Process` and then `After` once for each queued
  request, and one `After` at a time; pool threads, callbacks and new requests interleave freely.  A
  step that touches a worker, a block or a handle that is gone, or reads a field nothing has written,
  is a fault.  `Outcome` is what any worker's `execute` may leave behind: the blocks its worker holds, which
  `map` frees, the blocks it has lost, which nothing frees, and a message that may or may not outlive it.
  `Payloads` shows what those of the network, disk, process, mount and process-list workers do.
- **Oracles.** System calls, `malloc`, file contents, the order of completions and the content of
  uninitialised variables are parameters, so every theorem holds for all of them.
- **Numbers.** JavaScript numbers are exact: integers with NaN, or reals.  `size_t` and `int64_t`
  wrap around.
- **Text.** `split(/\W+/)`, `trim` and `parseInt` follow sections 15.5.4.14, 15.5.4.20 and 15.1.2.2
  of ECMA-262 5.1.

What the code does against its evident intent, each with its exact condition or a concrete input:

- `dropin` of /proc/net/dev reads the errors column (lib/psutil.js:394): `NetDev.PerNicRoundTrip`.
- Every per-CPU entry reads the first line of /proc/stat (lib/psutil.js:282): `CpuTimes.PerCpuIsMeantExactly`,
  `LinuxCpuPercent.PerCpuIsTheWhole`.
- `cpu_percent` goes on after reporting an error (lib/psutil.js:64, 70): `CpuPercent.CpuPercent`.
- `disk_partitions` never calls back for an empty list (lib/psutil.js:178-194): `DiskPartitions.Request`.
- The native sums start from uninitialised variables (network_io_counters_worker.cc:103,
  disk_io_counters_worker.cc:147): `SumIsFoldOfNicsExactly`, `SumIsFoldOfDisksExactly`.
- The per-device flag is read from the callback (lib/psutil_lib_osx.cc:90, 113): `EntryPoints.Wrapper`,
  `NativeCounters.NetworkIoCounters`.
- Three workers keep the text of an error in a local array of `execute` (cpu_worker.cc:36-43,
  virtual_memory_worker.cc:64-69, swap_memory_worker.cc:60-65), and `After` reads it later:
  `Requests.ErrorsAreShownExactly`.
- Blocks stay allocated when the second network query fails, when the disk loop ends in error, when no
  whole process record comes back, and for every list of mounts: `NetworkWorker.Serve`,
  `DiskWorker.Serve`, `PidList.PidListWorker.Execute`, `MountOptions.Serve`.
- All mount records point at one options buffer, a local variable of `execute` that is gone when `map`
  reads it: `MountOptions.DiskPartitionsWorker.List`, `MountOptions.Serve`.
- A process name of 12 or more characters is copied without a terminator and read past its block:
  `ProcessWorker.Serve`, `ProcessWorker.TwelveLettersOverrun`.
- A disk whose name is not all letters, digits and underscores, such as dm-0, is read under another name
  with shifted counters (lib/psutil.js:448-465): `DiskFiles.LineParses`,
  `DiskRoundTrip.PerDiskIsMeantExactly`, `DiskRoundTrip.MapperIsMisread`.
- `read_bytes` and `write_bytes` of /proc/diskstats are counts of sectors (lib/psutil.js:453-454):
  `DiskFiles.BytesAreSectors`.
- A ')' inside a process name shifts the stat tokens, and a space, or a ')' before other characters, spoils the name read
  from the same line: `ProcessStat.ValuesLineUp`, `ProcessStat.NameIsComm`.
- After a failed property query the disk loop goes on with the error set
  (disk_io_counters_worker.cc:59-67): `DiskWorker.DiskIOCountersWorker.Execute`.
- A failed read of /proc/meminfo is not reported but throws (lib/psutil.js:328-339):
  `MemInfo.VirtualMemoryLinux`.

## Model

| member | source | states |
|---|---|---|
| Requests.NeverFaults | lib/psutil_lib_osx.cc:316-363 | in every reachable state no enabled step uses a deleted worker, deletes or disposes twice, frees a block twice, or reads a message or answer that was never written; the text of a message is `Requests.ErrorsAreShownExactly` |
| Requests.StepKeepsInv | lib/psutil_lib_osx.cc:74-363 | every step of the protocol succeeds and keeps the invariant: workers, libuv's requests and handles correspond one to one; fields are the outcome's exactly from the end of `execute`; the live blocks are exactly the held ones; call and deletion counts are exact |
| Requests.DoneAfter | lib/psutil_lib_osx.cc:316-363 | which requests wait for `After` after a step: an ended `execute` adds its own, a started `After` removes its own, nothing else changes |
| Requests.EveryRun | lib/psutil_lib_osx.cc:316-363 | for every interleaving of any number of requests: no fault; each request called back at most once, only after its own `execute` ended, with (null, answer) or (error, null) as that ended; deleted at most once; the blocks it holds live until `map`, or for good after a failure, and those it has lost live for good |
| Requests.CalledBackAsEnded | lib/psutil_lib_osx.cc:316-353 | for every `execute` of every run: its worker's callback, if called by then, got (error as it is seen, null) after a failure and (null, answer) after a success, whatever steps came before, between and after |
| Requests.ErrorsAreShownExactly | lib/psutil_lib_osx.cc:331-337 | in every run a callback gets an error exactly for a failed request, and sees its text if and only if the message outlives `execute` |
| Requests.Quiescent | lib/psutil_lib_osx.cc:323-363 | when libuv has nothing left, every request ever issued was called back exactly once and deleted exactly once, no handle is left, and the heap holds exactly what requests have lost and what failed requests held |
| Requests.NoLeakExactly | lib/psutil_lib_osx.cc:331-344 | nothing leaks if and only if no `execute` lost a block and none that failed left its worker holding one, because `map` is skipped on error |
| Requests.OneLifeEach | lib/psutil_lib_osx.cc:74-363 | in every run the steps about one request are the beginning of queued, started, ended, called back, deleted, each once and in this order, and all five exactly if it was issued and libuv no longer knows it |
| Requests.StepAges | lib/psutil_lib_osx.cc:316-363 | a step takes its own request to the next phase of its life and no other request anywhere |
| Requests.HistoryGrows | lib/psutil_lib_osx.cc:323-363 | later steps never take back a call, a deletion or an outcome |
| Requests.Progress | lib/psutil_lib_osx.cc:316-363 | while a request is outstanding some step other than a new request is enabled: no deadlock |
| Requests.FiveStepsEach | lib/psutil_lib_osx.cc:74-363 | every run spends exactly five steps on each request, counting the steps still to come, whatever the interleaving |
| Requests.Finish | lib/psutil_lib_osx.cc:316-363 | from every reachable state a schedule without new requests, of exactly the remaining number of steps, serves every request |
| Requests.PSUtilLib.Enqueue | lib/psutil_lib_osx.cc:85-94 | an entry point allocates a worker with error false, makes its handle and queues it: the new state is that of the step; the worker's own parameters are not part of it |
| Requests.PSUtilLib.FinishProcess | lib/psutil_lib_osx.cc:316-321 | the end of `execute` writes the outcome into the worker and adds its blocks |
| Requests.PSUtilLib.CallBack | lib/psutil_lib_osx.cc:331-353 | `After` calls back with (error, null), or frees through `map` and calls back with (null, answer) |
| Requests.PSUtilLib.CleanUp | lib/psutil_lib_osx.cc:360-362 | `After` ends by disposing the handle and deleting the worker |
| Requests.PSUtilLib.Process | lib/psutil_lib_osx.cc:316-321 | with anything happening elsewhere meanwhile, the state afterwards is that of the corresponding run, and the invariant holds |
| Requests.PSUtilLib.After | lib/psutil_lib_osx.cc:323-363 | whatever the callback and the pool do before it returns, its request is then called back once, deleted once and without a handle |
| Requests.AfterStays | lib/psutil_lib_osx.cc:336-362 | while a callback runs nothing else changes or removes the worker that `After` holds |
| Payloads.EndIsStep | lib/psutil_lib_osx.cc:316-321 | an `execute` that allocates exactly the blocks of its outcome is the step of the protocol that ends it: enabled, without fault, and with the same addresses allocated afterwards |
| Payloads.EnterIsStep | lib/psutil_lib_osx.cc:331-344 | when `After` starts, the blocks the worker holds are allocated, and a `map` that frees exactly those, or none after an error, is what the protocol does |
| Payloads.ExecuteNetwork | lib/workers/network_io_counters_worker.cc:24-91 | fails exactly when a query or the allocation fails; holds two new blocks for each record; loses the message buffer exactly when the second query fails |
| Payloads.MapNetwork | lib/workers/network_io_counters_worker.cc:93-157 | frees exactly the blocks that the worker holds, whatever else has been allocated meanwhile |
| Payloads.ExecuteDisks | lib/workers/disk_io_counters_worker.cc:20-135 | fails and holds two new blocks for each record as the scan decides; loses a name exactly for a disk without statistics |
| Payloads.MapDisks | lib/workers/disk_io_counters_worker.cc:137-195 | frees exactly the blocks that the worker holds |
| Payloads.ExecuteProcess | lib/workers/process_worker.cc:187-201 | holds no block on failure, otherwise one except for the parent, and loses none |
| Payloads.MapProcess | lib/workers/process_worker.cc:203-230 | frees exactly the block that the worker holds |
| Payloads.ExecuteMounts | lib/workers/disk_partitions_worker.cc:19-117 | holds one new block for each mount, and loses the list buffer whenever it was allocated, with success too |
| Payloads.MapMounts | lib/workers/disk_partitions_worker.cc:119-147 | frees exactly the records; the list buffer stays |
| Payloads.ExecutePids | lib/workers/pid_list_worker.cc:100-123 | holds nothing, and loses its buffer exactly when it succeeds without a whole record |
| Payloads.NothingLeaksExactly | lib/psutil_lib_osx.cc:316-363 | in every interleaving of requests of the five kinds, once all are served the heap is empty if and only if no second network query failed, no disk loop ended in error after allocating something, no list of mounts was allocated, and no list of processes came without a whole record |
| EntryPoints.NativeEntry | lib/psutil_lib_osx.cc:74-118 | for any number of arguments: refused only as one argument of the wrong type or two that are both wrong; the callback is the only or the second argument; the flag is the truth of the second of two |
| EntryPoints.FalseValues | lib/psutil_lib_osx.cc:78-90 | undefined, null, false, 0, NaN and the empty text are the false values, and no others |
| EntryPoints.Wrapper | lib/psutil.js:10-32 | given a callback, the worker gets the per-device flag that the caller meant if and only if that flag is true or was left out |
| NativeCounters.NetworkIoCounters | lib/psutil.js:22-32 | from arguments to answer: without a flag the sums, with any flag and a callback, false too, one object per interface, of rows of which the k-th is what the k-th interface message of the buffer says |
| NativeCounters.DiskIoCounters | lib/psutil.js:10-20 | the same for the disks, of rows of which the k-th is what was counted of the k-th counted disk; it fails exactly if the listing or some disk does |
| CHeap.Heap.Malloc | lib/workers/pid_list_worker.cc:68-82 | an allocation is a block at an address that was free, or nothing |
| CHeap.Heap.Free | lib/workers/pid_list_worker.cc:86 | only a live block can be freed, and only that block goes |
| PidList.GetProcList | lib/workers/pid_list_worker.cc:36-98 | for every system call and allocation outcome: the loop body runs until the first attempt with a result and at most eight times; the size given to the second query is always that of the buffer just allocated, even when size + (size >> 3) wraps; 0 leaves exactly one new block, anything else none |
| PidList.Allocate | lib/workers/pid_list_worker.cc:68-82 | one turn gets a new block of the padded size, or of the plain size when the padding wraps or is refused, and reports that size |
| PidList.CapacityIs | lib/workers/pid_list_worker.cc:68-79 | an eighth more is asked for exactly from 8 bytes on and while the sum is below 2^64; then the plain size, if that is granted |
| PidList.Turn | lib/workers/pid_list_worker.cc:62-96 | one turn returns its code or goes on, keeps a new block exactly on success, and gives the second query the size of the block |
| PidList.LastAttempt | lib/workers/pid_list_worker.cc:62-97 | the loop stops at the first attempt with a result, every attempt before it ran out of room |
| PidList.SucceedsExactly | lib/workers/pid_list_worker.cc:62-97 | the call returns 0 if and only if some attempt among eight fills its buffer and all before it got one and failed for lack of room only |
| PidList.CodeAfter | lib/workers/pid_list_worker.cc:62-97 | after any number of attempts without room, what each way to end the next one returns; 12, ENOMEM, after eight |
| PidList.PidListWorker.Execute | lib/workers/pid_list_worker.cc:100-123 | reads stay inside the live buffer; result i is the i-th pid, plus 2^64 if that is negative, for all whole records in order; the buffer is freed exactly if at least one whole record came back |
| PidList.PidListWorker.Map | lib/workers/pid_list_worker.cc:125-142 | the array holds every result in order |
| Records.TwoBlocksEach | lib/workers/network_io_counters_worker.cc:67-84 | the records of a request own two blocks each, all different |
| Records.SumAndRelease | lib/workers/network_io_counters_worker.cc:99-120 | the sum loop adds every record and frees each record and each name exactly once: the heap is as before the request |
| Records.CollectAndRelease | lib/workers/network_io_counters_worker.cc:131-153 | the per-device loop yields the object whose last record of a name stays, and frees each record and name exactly once |
| Records.WrapKeepsExactly | lib/workers/network_io_counters_worker.cc:103 | a 64-bit sum started from junk is right if and only if the junk is 0 |
| Records.WrapIs | lib/workers/network_io_counters_worker.cc:103-115 | the number of int64_t that differs from the exact one by a multiple of 2^64 |
| Records.AddUpWraps | lib/workers/network_io_counters_worker.cc:103-115 | adding with wrap-around at each step equals wrapping the exact sum once |
| NetworkWorker.MessagesOfBuffer | lib/workers/network_io_counters_worker.cc:58-62 | reading messages off a buffer inverts concatenating them |
| NetworkWorker.FramedExactly | lib/workers/network_io_counters_worker.cc:58-62 | a buffer is one the walk can handle if and only if it is a concatenation of well-formed messages |
| NetworkWorker.WalkStep | lib/workers/network_io_counters_worker.cc:60-64 | from a message start the length field leads to the next message start, inside the buffer |
| NetworkWorker.LengthBytes | lib/workers/network_io_counters_worker.cc:60-62 | the length field is two bytes, low first |
| NetworkWorker.StartIs | lib/workers/network_io_counters_worker.cc:58-62 | each message starts behind all messages before it |
| NetworkWorker.DecodedDescribes | lib/workers/network_io_counters_worker.cc:64-84 | a record holds as much of the name as the length allows, up to a NUL, each of the seven counters under its own name, and 0 for dropped output |
| NetworkWorker.RowsDescribe | lib/workers/network_io_counters_worker.cc:58-85 | there are as many records as RTM_IFINFO2 messages, and record k holds what the k-th of them says |
| NetworkWorker.OneInterface | lib/workers/network_io_counters_worker.cc:58-153 | a buffer of one such message is walked as that, and any rows that describe it make an object of one key |
| NetworkWorker.LongNameExactly | lib/workers/network_io_counters_worker.cc:67-70 | a name is too long exactly if its length and a NUL exceed 32 bytes |
| NetworkWorker.EachMessage | lib/workers/network_io_counters_worker.cc:39-56 | which text each failure of the two queries reports |
| NetworkWorker.NetworkIOCountersWorker.Walk | lib/workers/network_io_counters_worker.cc:58-88 | the walk ends, visits exactly the message starts, reads only inside the live buffer, and records in order exactly the RTM_IFINFO2 messages, two new blocks each, 32 bytes for its name; a name is written past its 32-byte block exactly if some name length is given as 32 or more |
| NetworkWorker.NetworkIOCountersWorker.Execute | lib/workers/network_io_counters_worker.cc:24-91 | the error paths and their messages; the records of the buffer; the message buffer is left allocated exactly if the second query fails |
| NetworkWorker.NetworkIOCountersWorker.Map | lib/workers/network_io_counters_worker.cc:93-157 | either branch releases all records; the answer is the sum over the initial junk, or the object per interface |
| NetworkWorker.TwoRowsSum | lib/workers/network_io_counters_worker.cc:99-130 | each of the eight counters is summed by itself |
| NetworkWorker.Serve | lib/workers/network_io_counters_worker.cc:24-157 | across `execute`, `map` and the skip of `map`: the heap ends as it began unless the second query failed, and without a name that is too long the answer is that of rows of which the k-th describes the k-th interface message |
| NetworkWorker.SumIsFoldOfNicsExactly | lib/workers/network_io_counters_worker.cc:99-154 | with distinct names and a total that fits, the sum branch equals the field-wise sum of the per-interface object if and only if the accumulators happened to start at zero |
| NetworkWorker.NoIntermediateOverflow | lib/workers/network_io_counters_worker.cc:103-115 | started from zero with non-negative counters, if the final total fits in 64 bits then no intermediate sum overflows |
| DiskWorker.ScanStep | lib/workers/disk_io_counters_worker.cc:38-134 | what one disk does to the loop, for each way a query can fail |
| DiskWorker.StoredDescribes | lib/workers/disk_io_counters_worker.cc:120-132 | a record holds the disk's name and counters, with nanoseconds divided by 1000 and cut off towards zero |
| DiskWorker.PushedStep | lib/workers/disk_io_counters_worker.cc:38-134 | while the loop passes disks, record k is that of the k-th counted one |
| DiskWorker.CleanExactly | lib/workers/disk_io_counters_worker.cc:28-135 | no error exactly if each disk has another parent or is counted without a late failure; then there is a record for every counted one |
| DiskWorker.DiskIOCountersWorker.Execute | lib/workers/disk_io_counters_worker.cc:20-135 | the records are those of the counted disks before the loop stops, record k that of the k-th, each two new blocks, 64 bytes for its name; the last error's text, word for word; one name block is lost exactly if a disk has no statistics |
| DiskWorker.DiskIOCountersWorker.Map | lib/workers/disk_io_counters_worker.cc:137-195 | either branch releases all records; the answer is the sum over the initial junk, or the object per disk |
| DiskWorker.TwoRowsSum | lib/workers/disk_io_counters_worker.cc:143-168 | each of the six counters is summed by itself |
| DiskWorker.Serve | lib/workers/disk_io_counters_worker.cc:20-195 | a failed request leaks exactly two blocks for every record and one for a lost name; the heap is restored if and only if there was no error or nothing to leak; otherwise the answer is that of rows of which the k-th describes the k-th counted disk |
| DiskWorker.SumIsFoldOfDisksExactly | lib/workers/disk_io_counters_worker.cc:143-191 | the sum branch equals the fold of the per-disk branch if and only if the accumulators happened to start at zero |
| ProcessWorker.ProcessWorker.ProcPidInfo | lib/workers/process_worker.cc:163-185 | succeeds exactly on a full record; otherwise the message tells a missing process from a refused one |
| ProcessWorker.ProcessWorker.Execute | lib/workers/process_worker.cc:42-201 | fills exactly the slot of the operation code and owns its block, a text as `strncpy` leaves it, or sets the error and allocates nothing |
| ProcessWorker.ProcessWorker.ReadText | lib/workers/process_worker.cc:212 | reading a text stays inside its block exactly if the block holds a terminator, and gives the text up to it |
| ProcessWorker.ProcessWorker.Map | lib/workers/process_worker.cc:203-230 | reads only the slot that `execute` wrote, stays inside its block exactly if the text is shorter than the block, and frees the block exactly once |
| ProcessWorker.Serve | lib/workers/process_worker.cc:187-230 | for every operation code and every outcome the heap ends as it began, the reply is the answer to the question asked if and only if a text fits its block: a name is shorter than 12; and it is a value exactly for the listed outcomes |
| ProcessWorker.EachAnswer | lib/workers/process_worker.cc:42-201 | what operations 0 to 4 answer, in numbers and texts: the times are seconds, and any other operation is not supported |
| ProcessWorker.EachError | lib/workers/process_worker.cc:55-185 | which of the two texts each failure reports: a process is missing exactly if its number is negative or the signal finds none |
| ProcessWorker.TwelveLettersOverrun | lib/workers/process_worker.cc:93-94 | a name of twelve characters for which `map` reads past the block |
| CStrings.CopiedExactly | lib/workers/process_worker.cc:93-94 | a copy of n cells is terminated, and then the whole text, if and only if the text is shorter than n |
| MountOptions.StrlCat | lib/workers/disk_partitions_worker.cc:56-106 | appending in place keeps the terminator and yields old text plus suffix when it fits, the truncated text when it does not |
| MountOptions.Render | lib/workers/disk_partitions_worker.cc:51-106 | the buffer ends up holding the rendered options of the flag word |
| MountOptions.RenderedFits | lib/workers/disk_partitions_worker.cc:51-106 | at most 199 characters before the terminator in 400 bytes, at every step, so nothing is ever truncated |
| MountOptions.SplitRecoversFlags | lib/workers/disk_partitions_worker.cc:56-106 | splitting the text on commas recovers the truth of every tested mask |
| MountOptions.SameTextExactly | lib/workers/disk_partitions_worker.cc:56-106 | two flag words give the same text if and only if they agree on all tested masks |
| MountOptions.PartsInOrder | lib/workers/disk_partitions_worker.cc:56-106 | the parts of the text are "ro" or "rw" and then the name of each set mask in the order of the tests, and nothing else |
| MountOptions.NamesAre | lib/workers/disk_partitions_worker.cc:62-106 | the 23 names |
| MountOptions.DiskPartitionsWorker.List | lib/workers/disk_partitions_worker.cc:51-116 | reads the list inside its live buffer; one new record for each mount in order, all pointing at one options buffer; at the end of the loop, while that lives, it holds the last mount's options, and so a record's own exactly if its flags agree with the last mount's |
| MountOptions.DiskPartitionsWorker.Execute | lib/workers/disk_partitions_worker.cc:19-117 | the error paths; the list buffer is allocated and never freed; the options buffer no longer lives when the call returns |
| MountOptions.DiskPartitionsWorker.Map | lib/workers/disk_partitions_worker.cc:119-147 | deletes every record once; device, mount point and type come from the list buffer; options only from a buffer that still lives |
| MountOptions.Serve | lib/workers/disk_partitions_worker.cc:19-147 | across `execute` and `map`: the option reads touch live memory if and only if there are no mounts, and exactly the list buffer stays allocated, whenever it was allocated |
| DiskPartitions.Pending.OnExists | lib/psutil.js:185-189 | one answer lowers the counter by one, keeps an existing partition, and calls back exactly when the counter reaches zero |
| DiskPartitions.Pending.RunAll | lib/psutil.js:178-194 | after any of the answers, in any order, the counter is the list length minus the answers so far, the results are those collected so far, and the only call is at the last answer |
| DiskPartitions.Request | lib/psutil.js:173-198 | exactly one call if and only if the native call failed, all were asked for, or the list is not empty; in the delivered list each partition occurs as often as there are places where it was listed and its device exists, in the order in which the answers came |
| DiskPartitions.DeliversExisting | lib/psutil.js:185-189 | for any completion order the collected list holds exactly the existing partitions, each as often as listed |
| DiskPartitions.ExistingIsFound | lib/psutil.js:185-189 | such a list has each partition as often as there are places with it and an answer of true |
| DiskPartitions.FoundIsDelivered | lib/psutil.js:187 | a partition is delivered if and only if some place lists it and its answer is true |
| DiskPartitions.CollectedInOrder | lib/psutil.js:185-189 | the k-th true answer to come in puts its partition in place k |
| DiskPartitions.CollectedIsComplete | lib/psutil.js:187 | no partition whose device exists is lost |
| ProcessCache.Process.CallField | lib/process.js:46-72 | a truthy field is delivered at once and starts no read; anything else starts one |
| ProcessCache.Process.OnRead | lib/process.js:53-58 | an error changes no field; a value is stored, except processor times on Linux, and delivered |
| ProcessCache.EveryInterleaving | lib/process.js:46-119 | in every interleaving of overlapping calls a field is null or the value of its most recently completed successful read that is stored, each call is pending or delivered once, and Linux never stores processor times |
| ProcessCache.AllDelivered | lib/process.js:46-119 | when nothing is pending, every call was delivered exactly once |
| ProcessCache.RunAsAsked | lib/process.js:46-119 | in every interleaving what is read and delivered for a call is the field that the call asked for |
| ProcessCache.AnsweredAsAsked | lib/process.js:46-60 | under constant answers every delivery, whatever overlaps, is the system's answer to the field its call asked for |
| ProcessCache.CachedIsUncached | lib/process.js:46-60 | under constant answers, for any interleavings of the same calls, an idle object has made exactly the deliveries of an idle object that never stores |
| ProcessCache.UncachedAlwaysReads | lib/process.js:46-60 | that object never stores, and each of its calls starts a read |
| ProcessCache.SecondCall | lib/process.js:46-119 | a second call starts a second read exactly if the value was "" or 0, or the times on Linux; otherwise the first value is delivered again |
| ProcessCache.CallAfterError | lib/process.js:53-58 | after an error the next call reads again |
| ProcessCache.StaleAnswer | lib/process.js:47 | under changing answers a later call still gets the first one |
| CpuPercent.EntryIsPercent | lib/psutil.js:75-97 | with idle time not decreasing every entry is a number in [0, 100], 0 when busy time did not grow, otherwise within 0.005 of the exact ratio |
| CpuPercent.EntryIsPercentExactly | lib/psutil.js:85-95 | when busy time grew, the exact ratio exists and lies in [0, 100] if and only if idle time did not decrease |
| CpuPercent.CpuPercent | lib/psutil.js:62-103 | for every pair of readings: one call and no exception if and only if both succeed and the second has no more samples than the first; a failed reading leads to an exception or a second call; entry i of a per-CPU answer is that of CPU i in both readings, NaN when a field is undefined |
| CpuPercent.CallsMadeByEach | lib/psutil.js:73-103 | the one call for two lists has an entry for each CPU of the second, entry i from element i of both; for two single readings it has their one entry |
| CpuPercent.ErrorsAreCalled | lib/psutil.js:62-73 | which calls each pair with a failed reading, or with too few samples in the first, leads to |
| CpuPercent.EntryOfSeven | lib/psutil.js:75-97 | the entry of two objects of seven numbers as one formula: busy is all but the fourth |
| CpuPercent.TwoCalls | lib/psutil.js:64 | a failed first reading and an empty second one: an error call and a result call |
| CpuPercent.AggregateDeltas | lib/psutil.js:75-94 | busy and idle growth of the field-wise sum are the sums of the growths |
| CpuPercent.AggregateIsBetween | lib/psutil.js:75-97 | if no time decreases, the aggregate percentage lies between the smallest and largest per-CPU percentages, after rounding and with the zero branch included |
| Rounding.RoundIsMonotone | lib/psutil.js:480-482 | rounding to decimals is monotone |
| Rounding.RoundFixes | lib/psutil.js:480-482 | numbers with that many decimals are left alone |
| Rounding.RoundIsNear | lib/psutil.js:480-482 | the result is within half a unit of the last decimal |
| Rounding.RoundHalfUp | lib/psutil.js:480-482 | halfway between two results the greater one is taken, below zero too |
| Rounding.RoundedPercent | lib/psutil.js:480-482 | percentages stay in [0, 100] |
| NetDev.NetworkIoCounters | lib/psutil.js:365-422 | the loop answers, for every text, with the object or the sums of its rows, or with the error of the first line without a colon |
| NetDev.ParseLine | lib/psutil.js:384-398 | name and counters of one line |
| NetDev.OtherAnswers | lib/psutil.js:371-382 | the read error as it came; "failed to parse data" for a line without a colon; an empty object without body lines |
| NetDev.NoBodyLines | lib/psutil.js:381 | a text of one line has no body lines |
| NetDev.TwoRowsSum | lib/psutil.js:406-413 | each of the eight counters is summed by itself |
| NetDev.AggregateIsConserved | lib/psutil.js:383-415 | the sums equal the sums over the object plus the lines that a later line of the same name replaced |
| NetDev.AggregateIsSumOfNics | lib/psutil.js:383-415 | with distinct names the aggregate is the field-wise sum of the object, for all eight counters |
| NetDev.AggregateAgreesExactly | lib/psutil.js:383-415 | for any text that parses the two modes agree if and only if in each counter every replaced row is 0 or the rest is NaN |
| NetDev.LineParses | lib/psutil.js:384-398 | a printed line parses to its name and its counters |
| NetDev.KernelHeaders | lib/psutil.js:381 | the two header lines that the kernel prints are such as the file theorems ask for |
| NetDev.FileParses | lib/psutil.js:381-398 | a printed file, whatever its padding, parses row by row |
| NetDev.PerNicRoundTrip | lib/psutil.js:379-404 | printing any list of interfaces with distinct names and parsing returns the original object if and only if the errors and drops columns agree for every interface |
| NetDev.DropinReadsErrors | lib/psutil.js:394 | a printed file with one drop and no errors, whose answer has 0 for `dropin` |
| DiskStats.ReadPartitionNames | lib/psutil.js:440-444 | the fourth token of each trimmed line |
| DiskStats.DiskIoCounters | lib/psutil.js:424-475 | the loops answer, for every pair of texts, with the object or the sums of the listed devices' rows, or the read error |
| DiskStats.TwoRowsSum | lib/psutil.js:451-456 | each of the six counters is summed by itself |
| DiskStats.ErrorsAreReported | lib/psutil.js:431-435 | the first read error is the one reported |
| DiskStats.ShortLine | lib/psutil.js:448-458 | a line of fewer than three tokens goes under "undefined" |
| DiskStats.AggregateIsConserved | lib/psutil.js:446-467 | for any two files the aggregate is the sum over the object plus the replaced rows |
| DiskStats.AggregateIsSumOfDisks | lib/psutil.js:446-467 | with distinct names the aggregate is the field-wise sum of the per-disk object |
| DiskStats.AggregateAgreesExactly | lib/psutil.js:446-467 | for any two files the two forms agree if and only if in each counter every replaced row is 0 or the rest is NaN |
| DiskStats.UnlistedIsIgnored | lib/psutil.js:450-457 | lines of devices that /proc/partitions does not list change neither form |
| DiskStats.OnlyListedDisks | lib/psutil.js:457-458 | the per-disk object has only listed devices |
| DiskFiles.LineParses | lib/psutil.js:448-465 | a printed line of /proc/diskstats reads as its device and its counters if and only if the name is all letters, digits and underscores |
| DiskFiles.PartitionParses | lib/psutil.js:441-443 | a printed line of /proc/partitions gives its name if and only if that is all letters, digits and underscores |
| DiskFiles.DeviceIsKey | lib/psutil.js:448-458 | whatever its name, a printed line is taken for the first word of it, or for its first counter if there is none |
| DiskFiles.PartitionIsKey | lib/psutil.js:441-443 | whatever its name, a printed partition is listed as the first word of it |
| DiskFiles.BytesAreSectors | lib/psutil.js:453-454 | the counts of bytes are right if and only if both counts of sectors are 0 |
| DiskFiles.HyphenShifts | lib/psutil.js:448-465 | a name with a hyphen and a number is read as what precedes the hyphen, the number as its reads, and every other counter from the column before |
| DiskRoundTrip.RowsAreMeantExactly | lib/psutil.js:440-466 | printing any two lists and reading the files gives the rows of the listed devices if and only if the listed names are words and no unlisted disk has the first word of a listed name |
| DiskRoundTrip.PerDiskIsMeantExactly | lib/psutil.js:440-472 | the per-disk answer for any two printed files is the meant one if and only if the listed names are words and each unlisted disk with the first word of a listed name is followed by a line of the same key or happens to read as what is meant there |
| DiskRoundTrip.AggregateIsMeantExactly | lib/psutil.js:440-472 | when the listed names are words, the aggregate is the meant one if and only if those unlisted disks' rows add nothing in any counter |
| DiskRoundTrip.WordsAreMeant | lib/psutil.js:440-472 | when every name in both files is a word, both forms of the answer are the meant ones, whatever is listed |
| DiskRoundTrip.MapperIsMisread | lib/psutil.js:440-465 | two printed files that list dm-0, and their answer under the key "dm" with shifted counters |
| CpuTimes.CpuTimesLinux | lib/psutil.js:261-295 | the loop answers with one entry for each leading cpu line, all read from the first line |
| CpuTimes.ReadErrorIsReported | lib/psutil.js:263-264 | a read error is reported as it came |
| CpuTimes.TicksAreSeconds | lib/psutil.js:272 | a counter is divided by the clock rate |
| CpuTimes.LineParses | lib/psutil.js:270-278 | a printed cpu line parses to its seven times |
| CpuTimes.FileParses | lib/psutil.js:265-292 | a printed file gives the aggregate times, and as many entries as it has per-CPU lines |
| CpuTimes.PerCpuIsMeantExactly | lib/psutil.js:280-289 | the per-CPU entries are those of their own lines if and only if every CPU has the counters of the first line |
| CpuTimes.SecondCpuReadsAggregate | lib/psutil.js:282 | a file for which the second CPU's entry is wrong |
| LinuxCpuPercent.PerCpuIsTheWhole | lib/psutil.js:62-103 | between any two printed files the per-CPU percentages are all the aggregate percentage, whatever the CPUs did, and an exception when the second file has more CPUs |
| LinuxCpuPercent.WholeIsShareOfTicks | lib/psutil.js:62-103 | the percentage between two printed files as one formula of their counters, in which the clock rate cancels out |
| MemInfo.VirtualMemoryLinux | lib/psutil.js:327-363 | the loop answers with the last row of each key; a native error is reported, a read error throws |
| MemInfo.OwnKey | lib/psutil.js:342-346 | a row is matched by its own key only, not by one that is part of it |
| MemInfo.TableParses | lib/psutil.js:339-349 | printing any table in any order, with or without units, and parsing it reads the three sizes in bytes |
| MemInfo.FileIsAnswered | lib/psutil.js:332-360 | the answer for a printed table: the three sizes, what is available, and used plus free is the total |
| MemInfo.BareKeys | lib/psutil.js:342-347 | a row of a key alone sets its size to 0 |
| MemInfo.SecondTokenIsSize | lib/psutil.js:343 | no second token gives NaN, an empty one 0, digits their number of kilobytes, anything else NaN |
| MemInfo.PercentIsShare | lib/psutil.js:352-354 | the answered percentage is within 0.05 of the exact share; the share lies in [0, 100] if and only if free, buffers and cached do not exceed the total, the rounded percentage if and only if they exceed it by at most its 2000th part |
| ProcessStat.SetCpuTimes | lib/process.js:110-121 | the two times of the text behind the first ')', or the failure |
| ProcessStat.TailSplits | lib/process.js:114-115 | splitting the later fields on `\W+` lines up index by index with splitting on blanks and only drops signs |
| ProcessStat.ValuesLineUp | lib/process.js:114-115 | on a whole stat line the tokens line up if and only if the process name holds no ')'; otherwise there are too many tokens |
| ProcessStat.CpuTimesAreRead | lib/process.js:114-118 | then tokens 11 and 12 are the user and system times |
| ProcessStat.LeadingSignShifts | lib/process.js:115 | without the leading state letter a sign makes an empty first token and shifts all others |
| ProcessStat.NameIsComm | lib/process.js:80-81 | the name read is the process name if and only if that holds no space and nothing but ')' from its first ')' on |
| ProcessStat.NameOtherwise | lib/process.js:80-81 | what is read otherwise: a space ends the name, and the first of several ')' is lost |
| ProcessStat.ReadErrorsAreReported | lib/process.js:79-113 | a file that cannot be read gives the same text for name, parent and times |
| ProcessStat.SetPpid | lib/process.js:94-107 | the read error, or the first line that starts with the key, 0 without one |
| ProcessStat.ParentIsRead | lib/process.js:97-104 | a printed parent is read back, whatever lines precede and follow |
| ProcessStat.StatusIsRead | lib/process.js:95-107 | the same for the text of a whole file, and 0 for one without the key |
| Text.TokensOfGlue | lib/psutil.js:387 | the tokeniser inverts printing words with any gaps between them |
| Text.GlueOfTokens | lib/psutil.js:387 | every text is its tokens glued by gaps, so tokenising loses only gaps |
| Text.SplitNonWord | lib/psutil.js:387 | the step-by-step algorithm of ECMA-262 5.1 section 15.5.4.14 computes the tokens |
| Text.SplitOfJoin | lib/psutil.js:381 | splitting on a separator inverts joining |
| Text.TrimPadded | lib/psutil.js:387-388 | trimming inverts padding with blanks |
| Text.WordCharacters | lib/psutil.js:387 | a character is kept in a token exactly if it is a digit, an ASCII letter or the underscore |
| Text.BlankCharacters | lib/psutil.js:388 | trimming removes the five control blanks and the space, and nothing else |
| Text.EmptyPartsStay | lib/psutil.js:381 | empty parts are kept |
| Numerals.ParseIntOfDecimal | lib/psutil.js:391 | reading a printed natural number gives it back, whatever follows it |
| Numerals.ParseIntReads | lib/psutil.js:391 | blanks and a sign may precede the number |
| Numerals.ParseIntFails | lib/psutil.js:391 | without a digit there the result is NaN |
| Numerals.PositionsAreUnsigned | lib/psutil.js:391-398 | no position of a tokenised text reads as a negative number |
| Numerals.ParseFloatOfDecimal | lib/psutil.js:272 | the same for `parseFloat` |
| Numerals.ParseFloatReads | lib/psutil.js:272 | a token such as 2e3 or 2E3 is read with its exponent, and Infinity as the infinite number |
| Numerals.ParseFloatFails | lib/psutil.js:272 | a token that begins with another letter than the I of Infinity is NaN |
| Numerals.NoNumber | lib/psutil.js:272 | NaN absorbs, and a missing clock rate gives no finite time |
| Totals.TotalIsConserved | lib/psutil.js:401-414 | summing rows equals summing the object they build plus the rows that were replaced in it |
| Totals.DistinctReplacesNothing | lib/psutil.js:402 | nothing is replaced if and only if the names are distinct |
| Totals.LastRowStays | lib/psutil.js:402 | the object holds, under each name, the last row of that name |
| Totals.TotalAppend | lib/psutil.js:406-413 | the sum over two lists of rows is the sum of their sums |

## Left out

- V8 and Node: scopes, templates, argument conversion beyond the flag, exceptions thrown by callbacks; a callback is an event that may issue further requests.
- Operating system calls (sysctl, IOKit, getfsstat, kill, proc_pidinfo, fs.exists, fs.readFile): their outcomes are parameters.
- libuv itself: that it runs `Process` and then `After` once for each queued request is assumed.
- IEEE 754 rounding and numbers beyond 2^53: integers and reals are exact, and the single-precision process times are reals.
- Requests.PSUtilLib.Enqueue: stands for all eleven entry points; their parameters (pid, path, operation, name) are not part of a worker here.
- NetworkWorker.NetworkIOCountersWorker.Walk: assumes that the kernel fills no more than the room it was given and fills it with messages whose lengths are positive; a failing allocation of a record or a name, which the code does not check, is not modelled; where a body has its name, its name length and its counters is a parameter; counters above 2^63 - 1, which the code stores in signed fields, are not modelled.
- DiskWorker.DiskIOCountersWorker.Execute: the counters left by the six number lookups and the name left by the string conversion are parameters, among them the read time, whose key is blank at lib/workers/disk_io_counters_worker.cc:113; reference counts of IOKit objects and the release of an unset dictionary are not modelled.
- ProcessWorker.ProcessWorker.Map: what a read past the block delivers, and whether it ends, is undefined; the model ends such a request with a reply of its own.
- MountOptions.DiskPartitionsWorker.Map: what a read of the dead options buffer delivers is undefined; the model delivers None.
- MountOptions.Render: the masks are parameters, and the 23 optional tests are one loop over a table.
- PidList.PidListWorker.Execute: assumes that the kernel reports no more bytes than the room it was given; MountOptions.DiskPartitionsWorker.Execute the same for mounts.
- Signed overflow in the native sums, undefined in C++, is taken to wrap around.
- NetDev.NetworkIoCounters: a line whose name is a property that objects treat specially, such as `__proto__`, is an ordinary key here.
- LinuxCpuPercent.PerCpuIsTheWhole: an infinite field, which no printed file gives, is taken as undefined.
- Messages from `strerror` are taken to last, although another thread may overwrite them.
- CpuTimes.CpuTimesLinux: the clock rate is a parameter; an error of the native call that gives it is not looked at by the code either.
- MemInfo.VirtualMemoryLinux: tokens that are not all digits but that JavaScript converts, such as hexadecimal ones, read as NaN; sizes of 10^21 bytes and more are exact.
- ProcessCache.Process.OnRead: the readers of one object never fail by throwing; what a malformed /proc file throws inside a callback is not modelled.
- The timer of `cpu_percent`: the second reading is any later one.
- `_swap_memory_linux`, `_pid_list_linux`, `_disk_partitions_linux`, `process_list` and the platform dispatch: simple filters, index copies and branches.
- The workers for processor times, memory, swap, disk usage, pid existence and sysconf: field copies or single formulas.
