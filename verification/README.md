# Verified model of the nvpkt tools

The repository sends packets straight from an NVMe drive to a network card and measures how fast that
can go. This project models its four engines in Dafny and proves what they promise.

* **The NVMe workload engine** (`userland-driver/tools/bench-nvme.c`): the address walker
  (`LbaWalk.dfy`), and the whole program as a transition system (`BenchModel.dfy`) in which main, up to
  32 worker threads, the reporter thread and the drive interleave freely. Every read or write of a
  counter or of the stop flag is a step of its own. A counter carries the 64-bit word that the machine
  holds and the number it stands for, so wrap-around is visible. `BenchWorker.dfy`, `BenchReporter.dfy`,
  `BenchRuns.dfy` and `BenchStop.dfy` prove properties of all runs, `BenchLines.dfy` what every printed line
  shows, `BenchHistory.dfy` that the model's records are what happened in the run, and `BenchExamples.dfy` has a
  run that prints a line.
* **The zero-copy scatter-list path** (`native-driver/nvpkt.c`): the two loops that carve one
  scatterlist, into an sk_buff and into a bio, as imperative code over objects (`ScatterGather.dfy`), and
  storing and transmitting a packet over a drive that is a map from addresses to bytes
  (`PacketPath.dfy`).
* **Netmap rings** (`recv-to-pram.c`, `xmit-from-pram.c`, `load-and-xmit.c`): buffer addresses and their
  physical translation (`RingLayout.dfy`), initialisation and the receive loops (`NetmapRing.dfy`), and
  the two transmit loops (`TransmitLoops.dfy`).
* **The result-file pivot** (`userland-driver/tools/parser.py`): string operations (`Text.dfy`),
  generated names (`ResultNames.dfy`), the file lookup (`ResultLookup.dfy`), and values, labels and
  table (`ResultTable.dfy`).

`Arith.dfy` holds shared facts about division, remainders and sums, `Wrappers.dfy` the option type. `dafny verify dfyconfig.toml` checks
everything.

## Assumptions

* The counters and the flag are sequentially consistent, each is written by one thread only, and a
  submission always yields a descriptor (the program has no branch for a failed one).
* A poll may return 0 only for a completed I/O; it may return something else at any time, whether
  because of a timeout or of an error on the drive.
* `rand()` returns an arbitrary number from 0 to 2^31 - 1, as in glibc.
* The kernel's new ring tail after a sync, the success of syncs and reads, and the schedule are arbitrary.
  The kernel leaves head and cur of a ring alone. nm_ring_next adds 1 modulo num_slots; nm_ring_empty
  compares cur with tail.
* At most 32 threads, which is the size of the program's thread array (the program itself only compares
  with the number of online CPUs); sizes and counts are C ints.
* A read command stores its data in the mapped bytes in order and stops where the mapping ends, although
  it asks for more (`PacketPath.RequestOutrunsMapping`).
* The mapping iterator yields pieces that are not empty and do not overlap, less than 4 GiB in total.
  sizeof(struct skb_shared_info) is a parameter, because it depends on the kernel; so is the drive's block
  size 1 << lba_shift.
* `int(xtic / 1024)` is modelled over the reals. Python's float division agrees below 2^53.

## Where the code does less than it seems to

These are theorems, each with the exact condition under which the code is right.

* The bio of a packet ends sizeof(skb_shared_info) bytes before the packet does: `txpkt_one` passes
  `npr.len` to one loop and `npr.len + sizeof(...)` to the other, and both subtract. The last bytes of
  every packet are never mapped for the drive to fill (`PacketPath.TxPktOne`, `PacketPath.StoredBytesAreSent`).
* For a packet shorter than skb_shared_info the DMA length wraps (`ScatterGather.TrimmingIsSoundIff`,
  `ScatterGather.ShortPacketWraps`).
* The block count of a read is cut to 16 bits; it covers the packet exactly when it fits
  (`PacketPath.RequestCoversPacketIff`).
* The generator's largest value is below the number of blocks, so the random walk never starts a request
  in the upper part of the drive (`LbaWalk.RandomReachesIff`).
* The first request of a thread is at the address after its slice start, because `next_lba` runs once
  before the loop (`BenchRuns.EveryRequestInRange`).
* P sequential requests in a row can overlap, the first with the last, when a thread's slice starts badly
  aligned (`LbaWalk.WindowIsDisjointIff`, `LbaWalk.LaggingWindowOverlaps`). A batch never does
  (`BenchRuns.SequentialBatchIsDisjoint`).
* A buffer gets a second I/O exactly when it is submitted while an I/O on it, whose poll failed, is still in
  flight (`BenchRuns.BufferDoublesIff`; `BenchStop.TimedOutBufferIsReused` is such a run).
* `xmit-from-pram` tests for one free slot and fills a batch (`TransmitLoops.XmitOverrunsIff`,
  `TransmitLoops.OverrunHappens`).
* Receive buffers of rings with different slot counts can coincide (`RingLayout.RingsShareBufferIff`,
  `RingLayout.UnequalRingsShareBuffer`).
* `find_file_by_key` finds files of longer numbers (`ResultLookup.LookupIsExactIff`). With the repository's
  batch sizes 1 and 16 the cell for batch 1 shows batch 16 (`ResultLookup.ShippedBatchesAreConfused`); the
  CPU counts 1 and 12 are alike.
* From 1024^3 on, row labels lose their suffix (`ResultTable.LabelTellsIff`,
  `ResultTable.LargeTicksAreConfused`).

## Model

| member | source | states |
|---|---|---|
| LbaWalk.NextInRange | userland-driver/tools/bench-nvme.c:182-202 | in every walk mode and for every random number, a request that fits the device is followed by one that fits |
| LbaWalk.RandomReachesIff | userland-driver/tools/bench-nvme.c:186-187 | the random walk reaches an address if and only if a request fits there and the generator can return it |
| LbaWalk.SeqClosedForm | userland-driver/tools/bench-nvme.c:192-196 | the i-th address of the sequential walk from any start: climb by nblocks, fall to 0, then multiples of nblocks modulo the period (B-1)/nblocks |
| LbaWalk.SeqFromZero | userland-driver/tools/bench-nvme.c:192-196 | from 0 the i-th address is (i mod P) * nblocks |
| LbaWalk.SeqReachesZeroAndRepeats | userland-driver/tools/bench-nvme.c:192-196 | from any start the walk is at 0 within P steps and from then on is the walk from 0, with period P |
| LbaWalk.PeriodCoversExactly | userland-driver/tools/bench-nvme.c:192-196 | one period reads a block if and only if it lies below P * nblocks; 1 to nblocks blocks at the end are never read |
| LbaWalk.SeqOverlapIff | userland-driver/tools/bench-nvme.c:192-196 | which two requests of a walk from any start overlap: on the cycle those whole periods apart, on the climb none, and a request of the climb meets the one or two multiples of nblocks it lies on |
| LbaWalk.PairInWindow | userland-driver/tools/bench-nvme.c:247-252 | fewer than P consecutive requests never overlap, from any start and across the wrap; the first and the last of P do exactly when the first is still on a climb whose start is badly aligned |
| LbaWalk.WindowIsDisjointIff | userland-driver/tools/bench-nvme.c:247-252 | exactly when P consecutive requests are pairwise disjoint; from 0, from any multiple of nblocks, and after the first fall to 0 they always are |
| LbaWalk.LaggingWindowOverlaps | userland-driver/tools/bench-nvme.c:192-196 | a start from which P consecutive requests overlap |
| LbaWalk.BlocksOfIsLeast | userland-driver/tools/bench-nvme.c:237 | the request size is the least number of 512-byte blocks that holds the I/O |
| LbaWalk.SlicesFit | userland-driver/tools/bench-nvme.c:380-383 | for every size and thread count the program accepts, one request fits a slice and the slices tile the device |
| LbaWalk.SlicesDisjoint | userland-driver/tools/bench-nvme.c:380-383 | first requests of different threads never overlap |
| BenchWorker.WorkerKept | userland-driver/tools/bench-nvme.c:213-267 | every step of a worker keeps positions, descriptors, counters and addresses consistent |
| BenchRuns.StepKept | userland-driver/tools/bench-nvme.c:130-402 | no step of any actor breaks the program's invariant, and no counter ever goes down |
| BenchRuns.StepsAreTheirOwn | userland-driver/tools/bench-nvme.c:130-402 | a step changes its actor's own state only; main touches a thread only to create it and the reporter only to start it |
| BenchRuns.RunInv | userland-driver/tools/bench-nvme.c:130-402 | the invariant holds in every state of every run |
| BenchRuns.InterimIsTrueDifference | userland-driver/tools/bench-nvme.c:137-162 | whenever an interim line is printed its end sums are not below its start sums, bytes cover size * count in both, and the printed words are the true differences modulo 2^64 |
| BenchRuns.PartialSumIsBetween | userland-driver/tools/bench-nvme.c:143-154 | in the middle of a pass the accumulator lies between the old and the current values of the threads read so far |
| BenchRuns.ReporterSumIsBetweenTotals | userland-driver/tools/bench-nvme.c:143-154 | the non-atomic sum lies between the true total at its first read and the true total at its last |
| BenchRuns.InterimIsBracketed | userland-driver/tools/bench-nvme.c:142-162 | a printed difference counts at least what was credited between the passes and at most what was credited over the whole interval |
| BenchLines.IntervalOf | userland-driver/tools/bench-nvme.c:137-162 | whenever the reporter is busy it is inside an interval of its own: a whole first pass, the sleep, a second pass, begun after the line before |
| BenchLines.EveryLineIsBracketed | userland-driver/tools/bench-nvme.c:137-178 | every line of every run, with no hypothesis on passes: line l was printed at the end of its own interval, and its two words are those of differences bracketed by what was credited between the passes and over the interval |
| BenchLines.NoIntervalIsAbandoned | userland-driver/tools/bench-nvme.c:173-175 | an interval once begun ends in its line, also when the stop flag is set in the middle |
| BenchRuns.EveryRequestInRange | userland-driver/tools/bench-nvme.c:237-251 | over all runs and walk modes every submitted request lies on the device; where the walk is not random its address is known exactly, where it is random it is below 2^31 |
| BenchRuns.SameModeThreadsAreDisjoint | userland-driver/tools/bench-nvme.c:189-190 | in same mode requests of different threads never overlap, in any run |
| BenchRuns.SequentialWindowIff | userland-driver/tools/bench-nvme.c:247-252 | in sequential mode fewer than P requests in a row of a thread never overlap, from its first request on; the first and the last of P do exactly on a badly aligned climb |
| BenchRuns.SequentialBatchIsDisjoint | userland-driver/tools/bench-nvme.c:247-252 | in sequential mode a batch never overlaps itself, in any run and for every accepted size, batch and thread count |
| BenchRuns.RoundBoundary | userland-driver/tools/bench-nvme.c:245-263 | at a round boundary every descriptor has been polled exactly once and in order, successes and failures make rounds * batch, and bytes are count * size |
| BenchHistory.HistoryIsTold | userland-driver/tools/bench-nvme.c:239-263 | for every thread in every state of every run: the log is what it submitted, `failed` is exactly the descriptors whose poll returned nonzero, the I/Os counted, with the one being credited, are the polls that returned 0, what is in flight is what was submitted and not completed, and in random mode address k is draw k modulo the block count less the request |
| BenchHistory.CountersFollowPolls | userland-driver/tools/bench-nvme.c:254-262 | count and bytes are at every moment those of the polls that returned 0 so far, give or take the one being credited, and exactly those at a round boundary |
| BenchExamples.OneIoIsShown | userland-driver/tools/bench-nvme.c:137-263 | a run in which one I/O of 512 bytes is credited during the sleep and the line shows 1 I/O and 512 bytes |
| BenchRuns.NoBufferTwice | userland-driver/tools/bench-nvme.c:247-262 | in every run at most batch I/Os without a failed poll are in flight, and of two I/Os on one buffer the older one had its poll fail |
| BenchRuns.SubmissionMeetsFailed | userland-driver/tools/bench-nvme.c:247-252 | before a submission its buffer has an I/O in flight if and only if that I/O's poll failed |
| BenchRuns.BufferDoublesIff | userland-driver/tools/bench-nvme.c:247-262 | over all runs a step gives a buffer a second I/O if and only if it submits that buffer while an I/O on it, whose poll failed, is in flight |
| BenchStop.TimedOutBufferIsReused | userland-driver/tools/bench-nvme.c:254-262 | a run in which a failed poll is followed by a second I/O on a buffer that still has one |
| BenchStop.StepBurnsFuel | userland-driver/tools/bench-nvme.c:388-393 | once the stop flag is set every step of every actor lowers a fixed bound |
| BenchStop.StopEndsTheRun | userland-driver/tools/bench-nvme.c:388-393 | after the flag no schedule, fair or not, lasts longer than that bound |
| BenchStop.NeverStuck | userland-driver/tools/bench-nvme.c:388-401 | a run can only rest with main finished, so after the flag every run finishes |
| BenchStop.WhoCanMove | userland-driver/tools/bench-nvme.c:254-256 | exactly who can move in a reachable state: threads and reporter never wait for each other, a poll can succeed only for a completed I/O and fail at any time, main waits only in its joins |
| BenchStop.NoRoundAfterStop | userland-driver/tools/bench-nvme.c:245-263 | after the flag a worker begins no round and submits at most what its rounds so far allow |
| BenchStop.FinishedIsSettled | userland-driver/tools/bench-nvme.c:391-399 | after the joins the counters are final and account for every submitted I/O |
| ScatterGather.SkbFromSgvec | native-driver/nvpkt.c:58-100 | the loop builds the linear part and the fragments of the carved list, with len and data_len agreeing with the parts at every iteration, and skb->len ends at length less the structure |
| ScatterGather.BlkRqMapFromSgl | native-driver/nvpkt.c:102-143 | the loop maps the carved list with its first extent shortened, in the driver's unsigned int arithmetic |
| ScatterGather.CarveIsPrefix | native-driver/nvpkt.c:68-93 | the carved pieces are the first bytes of the scatterlist, in order |
| ScatterGather.CarvingsSelectPayload | native-driver/nvpkt.c:58-143 | with one length, sk_buff and bio name the same bytes in the same order: the first length bytes without the structure's room in the first piece |
| ScatterGather.BioIsPrefixOfSkb | native-driver/nvpkt.c:169-195 | with the two lengths of the call sites the bio's bytes are a prefix of the sk_buff's |
| ScatterGather.InfoBehindLinear | native-driver/nvpkt.c:82-83 | the linear part and the structure behind it fill the part taken of the first piece |
| ScatterGather.DmaIsSafe | native-driver/nvpkt.c:120-138 | the mapped bytes are distinct, lie inside the pieces and never meet skb_shared_info |
| ScatterGather.TrimmingIsSoundIff | native-driver/nvpkt.c:122-134 | the shortened lengths stay inside the pieces if and only if the part of the first piece has room for the structure |
| ScatterGather.ShortPacketWraps | native-driver/nvpkt.c:122-126 | a packet of 60 bytes whose first DMA length wraps |
| PacketPath.RequestCoversPacketIff | native-driver/nvpkt.c:180-187 | the 0's based 16-bit block count covers the packet if and only if len >> lba_shift fits 16 bits |
| PacketPath.RequestIsExactly | native-driver/nvpkt.c:180-187 | how many blocks a transmission reads, for every length: where the count fits, up to the end of the block after the last full one; two for a short packet; otherwise the rest modulo 2^16 |
| PacketPath.StoreWritesItsBlocks | native-driver/nvpkt.c:262-305 | a store with NLB n writes exactly the n + 1 blocks from slba on, in order, and is refused if and only if a flag is set |
| PacketPath.SglAllocCovers | native-driver/nvpkt.c:160-161 | the allocated list has exactly the requested length, in whole pages and a rest |
| PacketPath.AllocatedListIsSound | native-driver/nvpkt.c:160-170 | a page that holds the structure makes every allocated list acceptable to both loops |
| PacketPath.MappedIsPrefixOfSent | native-driver/nvpkt.c:169-195 | the DMA of a call covers the packet but for its last sizeof(skb_shared_info) bytes |
| PacketPath.RequestOutrunsMapping | native-driver/nvpkt.c:180-195 | a request that covers its packet asks for at least sizeof(skb_shared_info) bytes more than the bio maps |
| PacketPath.TxPktOne | native-driver/nvpkt.c:147-220 | the sk_buff that is sent has skb->len == npr.len, and every byte of the packet is the drive's where mapping and request reach it, old memory elsewhere |
| PacketPath.OtherStoresDoNotMatter | native-driver/nvpkt.c:257-305 | a store elsewhere on the drive leaves the packet as it was |
| PacketPath.StoredBytesAreSent | native-driver/nvpkt.c:257-305 | after a store, byte j of a packet of the stored blocks is stored byte j for every j that the bio maps and the 16-bit request reaches, old memory elsewhere |
| RingLayout.LayoutInverse | userland-driver/tools/recv-to-pram.c:84-87 | ring and slot are recovered from the buffer address by division and remainder |
| RingLayout.BuffersDisjoint | userland-driver/tools/recv-to-pram.c:84-87 | buffers of different slots share no byte |
| RingLayout.FitsMappingIff | userland-driver/tools/recv-to-pram.c:150-165 | all buffers lie in the 64 MiB mapping if and only if rings * slots is at most 32768, and then no int overflows |
| RingLayout.RingsShareBufferIff | userland-driver/tools/recv-to-pram.c:97-104 | when rings with different slot counts would share a buffer |
| RingLayout.UnequalRingsShareBuffer | userland-driver/tools/recv-to-pram.c:97-104 | rings of 512 and 256 slots that share a buffer |
| RingLayout.EntryTranslates | userland-driver/tools/recv-to-pram.c:45-54 | the frame is the low 55 bits of the pagemap entry; a missing or zero entry ends the process |
| RingLayout.TranslationIsInjective | userland-driver/tools/recv-to-pram.c:53-54 | different virtual addresses have different physical ones |
| RingLayout.BufferIsContiguous | userland-driver/tools/recv-to-pram.c:97-104 | the one physical address of a buffer serves all of its 2048 bytes |
| RingLayout.PhysicalBuffersDisjoint | userland-driver/tools/recv-to-pram.c:97-104 | physical buffers of different slots share no byte |
| NetmapRing.InitRxRings | userland-driver/tools/recv-to-pram.c:89-109 | every slot of every ring gets the physical address of its own buffer, or the process ends because some buffer is unmapped |
| NetmapRing.ReceiveReadsInstalledBuffer | userland-driver/tools/recv-to-pram.c:217-219 | the buffer computed at reception is byte for byte the memory installed in the slot; installation keeps the slot's length and its other flags |
| NetmapRing.RingOrderIsInjective | userland-driver/tools/recv-to-pram.c:215-238 | no slot is visited twice in a drain |
| NetmapRing.RingOrderIsInterval | userland-driver/tools/recv-to-pram.c:215-238 | the slots visited are exactly those of the circular interval from head to tail |
| NetmapRing.DrainRing | userland-driver/tools/recv-to-pram.c:215-238 | the drain terminates, reports slot (cur + i) mod num_slots and its buffer as packet n + i up to the tail, and leaves head, cur and tail equal |
| NetmapRing.DrainAll | userland-driver/tools/recv-to-pram.c:211-239 | one pass reports, for every ring from first_rx_ring on, its slots from cursor to tail in ring order, the rings in turn and the packets numbered consecutively from n, each with the buffer of its ring and slot; other rings and all tails are left alone |
| TransmitLoops.XmitFromPram | userland-driver/tools/xmit-from-pram.c:214-242 | the batched loop terminates and is the specified run; the slots from cur on, as many as packets were sent, have the packet's length, address and flag, all others are untouched, and cur has advanced by the packets sent |
| TransmitLoops.XmitFillsWholeRounds | userland-driver/tools/xmit-from-pram.c:215-242 | a run that is not aborted fills batch * ceil(count / batch) slots, and no run stops inside a batch |
| TransmitLoops.XmitSlot | userland-driver/tools/xmit-from-pram.c:220-233 | packet k goes to slot (cur + k) mod num_slots whatever the kernel does; a round begins only with packets left and a slot free before the tail of the last sync, and follows only a successful sync |
| TransmitLoops.XmitEnds | userland-driver/tools/xmit-from-pram.c:215-242 | which of the three ends a run comes to: the last sync failed, everything is sent, or the cursor is at the tail the last sync brought |
| TransmitLoops.XmitOverrunsIff | userland-driver/tools/xmit-from-pram.c:220-233 | cur passes tail if and only if, given the ring and the tails the kernel will publish, some round begins with fewer free slots than the batch |
| TransmitLoops.OverrunHappens | userland-driver/tools/xmit-from-pram.c:220-233 | a ring with two free slots is overrun by a batch of three |
| TransmitLoops.LoadAndXmit | userland-driver/tools/load-and-xmit.c:197-245 | the nested loop, with or without -b, is the flat run of count * nblocks packets with its early exits; the slots from cur on, as many as packets were sent, are set up for it, all others are untouched, and cur has advanced by the packets sent |
| TransmitLoops.LoadPacket | userland-driver/tools/load-and-xmit.c:198-233 | for packet k block slba + (k mod nblocks) is read, it goes to slot (cur + k) mod num_slots, that slot was free before the tail of the last sync, and the read and every sync before succeeded |
| TransmitLoops.LoadEnds | userland-driver/tools/load-and-xmit.c:197-245 | which of the four ends a run comes to: its last sync failed, everything is sent, the next read failed, or the cursor is at the tail |
| Text.PatternInJoin | userland-driver/tools/parser.py:50-52 | a pattern with one separator occurs in a joined text if and only if it fits one of the seams |
| Text.ParseDecimal | userland-driver/tools/parser.py:42 | int() reads back a decimal |
| Text.ParseIntTakes | userland-driver/tools/parser.py:42 | int() takes digits with spaces around and a plus sign |
| Text.ParseIntTakesOnly | userland-driver/tools/parser.py:42 | and nothing else |
| ResultNames.NameIsInjective | userland-driver/tools/bench-all.sh:21 | different benchmark runs have different file names |
| ResultNames.SubstringIsDecimalPrefix | userland-driver/tools/parser.py:46-54 | "key-x" occurs in a generated name if and only if the decimal of x is a prefix of that parameter's decimal |
| ResultLookup.FindFileByKey | userland-driver/tools/parser.py:46-57 | the counting loop returns the first file that contains every key |
| ResultLookup.FirstMatchIs | userland-driver/tools/parser.py:48-54 | a matching file that no matching file precedes is the result |
| ResultLookup.NoMatch | userland-driver/tools/parser.py:55-57 | it gives up if and only if no file contains every key |
| ResultLookup.LookupIsExactIff | userland-driver/tools/parser.py:98-101 | the lookup equals the keyed lookup, its failure included, if and only if no file that merely extends the decimals asked for stands before the first exact file, or anywhere when there is none |
| ResultLookup.PrefixFreeLookupIsExact | userland-driver/tools/parser.py:98-101 | over prefix-free value sets the lookup is the keyed lookup for every cell and file order: the first exact file, and none if and only if there is no exact file |
| ResultLookup.ShippedBatchesAreConfused | userland-driver/tools/bench-all.sh:9 | with the repository's batch sizes the cell for batch 1 is filled from batch 16 |
| ResultTable.Variants | userland-driver/tools/parser.py:35-44 | the result is the ascending list of exactly the values of the selected parameters; it fails if and only if int() rejects one |
| ResultTable.NameFormat | userland-driver/tools/bench-all.sh:21 | the name of a run, letter by letter |
| ResultTable.ValueTextIs | userland-driver/tools/parser.py:42 | the value of a parameter is the text between its first and second dash, or to the end |
| ResultTable.ParamsOfName | userland-driver/tools/parser.py:39-40 | strip and split recover the four parameters of a generated name |
| ResultTable.VariantsOfNames | userland-driver/tools/parser.py:35-44 | over generated names the values are exactly those the key takes |
| ResultTable.ScaleTick | userland-driver/tools/parser.py:84-89 | the scaling loop terminates with m * 1024^k <= x < (m + 1) * 1024^k and m below 1024 |
| ResultTable.ScaledIsUnique | userland-driver/tools/parser.py:84-89 | that pair is unique |
| ResultTable.LabelsAgreeIff | userland-driver/tools/parser.py:90-95 | two rows have the same label if and only if scaled value and suffix agree; below 1024^3, if and only if they scale alike |
| ResultTable.LabelTellsIff | userland-driver/tools/parser.py:84-95 | read back, number times K or M, a label is its row's value rounded down to that unit if and only if the value is below 1024^3 |
| ResultTable.RowTellsIff | userland-driver/tools/parser.py:84-103 | so for the label of every row of the table |
| ResultTable.LargeTicksAreConfused | userland-driver/tools/parser.py:90-95 | 1 and 1024^3 have the same label |
| ResultTable.TableRow | userland-driver/tools/parser.py:84-103 | a row is the scaled label and the first matching file of each cell, or the script stops |
| ResultTable.PivotTable | userland-driver/tools/parser.py:73-103 | rows and columns are the sorted values and every cell its first matching file; the script stops only when int() rejects a name or a cell has no file |
| ResultTable.TableIsExact | userland-driver/tools/parser.py:84-103 | over generated names with prefix-free values every cell shows a file with exactly its two values |

## Left out

- Kernel module set-up, `copy_from_user`, request allocation and execution, sk_buff and bio internals: only their effect on lengths, segments and bytes is modelled. The limit on fragments per sk_buff, which the driver does not check, is among them, and so are failing allocations.
- `nvpkt_ioctl_txpkt_count`: repeats the modelled call; its return value is the count plus one.
- Capacity of the drive: block addresses are unbounded in the store-and-transmit model.
- `get_usec_elapsed`, rates, `print_result`, option parsing, packet construction, hex dumps: straight-line code or printing.
- Weak memory effects on the counters.
- The cursor flush after initialisation in `recv-to-pram.c`, which skips the last ring.
- File contents: cells of the table are the files they are computed from.
- ResultTable.Variants: int() is modelled on ASCII text; digits and spaces outside ASCII are rejected where Python takes some of them.
- NetmapRing.DrainRing: does not model the data written into the buffers or the kernel moving tail during the drain.
- TransmitLoops.XmitFromPram: requires a batch of at least 1, because with 0 or less the source's loop makes no progress.
- PacketPath.TxPktOne: requires a packet that is empty or at least as long as skb_shared_info; below that the DMA length wraps (ScatterGather.TrimmingIsSoundIff) and what the kernel does with it is not modelled.
- TransmitLoops.LoadAndXmit: with -b the packet built in the slot's own buffer is not modelled, only the slot.
- ScatterGather.SkbFromSgvec: requires room for the structure in the first piece, because skb_put of a negative length stops the kernel.
- BenchRuns.InterimIsTrueDifference: the printed word is the true difference itself only while that fits 64 bits.
- Demonstration tools with a single call, plot scripts and benchmark data.
