# Verified models of the CVA6 and HPDcache test infrastructure

Dafny models, and proofs about them, of three groups of programs:

1. **The CVA6 cycle-level performance model** (`perf-model/model.py`, `isa.py`): trace queue,
   byte-counting instruction queue, return-address stack, branch history table, functional units,
   in-order issue and commit, the run loop, and the decoding that feeds it.
2. **The HPDcache test bench's two models of memory** (scoreboard and memory response model), its
   LR/SC and exclusive reservations, its two AMO units, and the life of a transaction identifier.
3. **Bit-level codecs**: the trace-packet decapsulator, the fault-mask splitter, and the binary
   memory trace written by the QEMU plugin and read by the test bench.

`dafny verify dfyconfig.toml` checks everything.

## How it is organised

Code that updates objects in place is written twice. A function on a value (`Pipeline.TryIssue`,
`Board.OnCoreResp`, `MemoryModel.WriteOperation`) says what a step does to the whole state; a class
(`Scheduler.Model`, `TestBench.Scoreboard`, `TestBench.MemRespModel`) does it with the source's
branches and loops, and every method ensures that the object's `View()` afterwards is that function
of the `View()` before. The theorems are about the functions, for every trace, configuration,
history or packet. They speak of registers, classes, cycles, addresses and bytes rather than of the
functions that model the code, so that a wrong step contradicts them.

| file | contents |
|---|---|
| `Prelude`, `Bytes`, `BitFields` | powers of two, remainders, little-endian numbers, bit fields |
| `Instructions`, `FetchQueue`, `ReturnStack`, `BranchHistory`, `FunctionalUnits`, `Pipeline` | the scheduler's state and its steps |
| `Timing`, `Hazards`, `Ports`, `Progress`, `FetchArithmetic` | one invariant each, step by step |
| `Runs`, `RunTheorems`, `Schedule`, `StraightLine`, `Predictions`, `Returns`, `Mispredictions` | theorems about whole runs |
| `Scheduler` | the classes of `model.py` |
| `Immediates`, `Isa`, `Opcodes` | instruction layouts and decoding |
| `Amo`, `AmoLanes`, `MemoryModel`, `Board`, `TestBench` | both AMO units, both memories, their classes |
| `Golden`, `FalseReports`, `Checks`, `Reservations`, `TransactionIds` | theorems about runs of the test bench |
| `TracePacket`, `PacketRoundTrip`, `FaultMask`, `QemuTrace` | the codecs |

### Ideas of the main proofs

- *Liveness.* The invariant counts the cycles since the last issue. After `max(6, sb_len + 3)` of
  them the scoreboard has drained, no misprediction can flush any more and the verdict on the head is
  logged, so the byte count only grows; four cycles later the head must issue.
- *Fetch arithmetic.* A successor whose prediction was not looked at yet is at most two cycles late,
  because only a full scoreboard keeps a slot from examining it; so it is examined before the
  six-cycle limit, and the count has been flushed or moved to a boundary before any removal.
- *Returns.* Inside a frame, the frame's return address is exactly as deep in the bounded stack as
  the frame's nesting, or it is lost for good.
- *Golden agreement.* The invariant concerns the bytes that some access reads without error: known to
  the shadow, such a byte is the byte in memory; unknown, it was never written. Each stage of a
  transaction is reduced to a byte-wise statement about one word.
- *Transaction identifiers.* The protocol runs the scoreboard's own processes, early exits included; each
  of its steps keeps the identifiers in balance exactly when its guard holds.

### Where the code does not do what is expected of it

- `CJtype.offset` drops bits of C.J and C.JAL offsets: right exactly when bits 4 to 2 are zero
  (`CompressedJumpOffset`; 4 decodes as 0, `CompressedJumpLosesFour`). The scheduler never reads it.
- The scoreboard reports errors in correct runs for two reasons. Its shadow is a RAM of 16 MiB addressed
  modulo its size, so bytes a multiple of 16 MiB apart are confused. And the memory answers an AMO in an
  error segment with zero data and no error on the read channel, which the scoreboard takes for the
  contents of memory. A run from a given memory is never reported exactly when neither can be noticed:
  no two bytes that can be read without error share a place in the RAM, and such a byte is zero where an
  erroring AMO reaches its place (`SilentIff`). For any memory, that is: no place is reached by an erroring
  AMO and read without error (`SilentForEveryMemory`). Without error segments only the first reason is
  left (`SilentIffNoAlias`). `RandomTestTaint` and `SplitWordReported` are two inputs; in the first, the
  random test's own segments make the shadow differ from memory, though only where every access errs.
- The scoreboard drops an atomic request that finds its fifo of sixteen full, and a response with an
  unexpected error flag, without releasing the identifier. `ReadSound` and `ResponseSound` show that
  these are the only steps that break the identifier protocol; `SeventeenthAtomicLeaks` and
  `WrongFlagUnbalances` show how.
- `extract_bits` returns 0xdead for an address field of more than 64 bits, so a packet with a large
  `P_Size` loses its address (`PacketRoundTrip` gives the exact condition, `WideAddressLost` a packet).
- The exit handler of the QEMU plugin loses the last byte when one byte is left in its buffer, and
  does not return when none is left (`TraceRoundTrip` gives the exact condition; `LastByteLost` and
  `FullBufferHangs` are 4091 and 5000 loads).
- `Ras(depth)` holds `depth - 1` addresses, so the scheduler's stack holds one: a return is predicted
  to its call exactly when no call was nested in between (`PredictedReturn`).

## Model

| member | source | states |
|---|---|---|
| `RunTheorems.RunTerminates` | cva6-master/perf-model/model.py:511-548 | for every trace and every configuration with widths and scoreboard length of at least 1, the run is over after a number of cycles linear in the trace, and has retired exactly the trace |
| `RunTheorems.PromptIssue` | cva6-master/perf-model/model.py:410-478 | every instruction issues at most `max(6, sb_len + 3) + 4` cycles after the one before it, whatever the predictors and hazards do |
| `Progress.NothingInTheWay` | cva6-master/perf-model/model.py:457-478 | with a drained scoreboard, free units, a settled verdict and two fetches of bytes, an issue attempt succeeds |
| `Progress.ExaminedHead` | cva6-master/perf-model/model.py:410-426 | an examined head carries the verdict of its prediction; once it does and six cycles have passed, examining it again leaves the bytes alone |
| `Progress.CommitDrains` | cva6-master/perf-model/model.py:494-519 | three cycles after the last issue, every cycle takes at least one entry off the scoreboard until it is empty |
| `Progress.RemoveBound` | cva6-master/perf-model/model.py:127-165 | a removal never leaves the queue owing more than two fetches, and less than one unless the instruction is a jump |
| `RunTheorems.AllRetired` | cva6-master/perf-model/model.py:533-548 | a run that is over has retired the whole trace in order |
| `RunTheorems.ConservationAlways` | cva6-master/perf-model/model.py:457-519 | at every cycle, retired, scoreboard and queue concatenate to the trace and the scoreboard is not over-full |
| `RunTheorems.CommitRate` | cva6-master/perf-model/model.py:494-515 | a cycle appends at most one instruction per commit port, and only the first of them can be a store |
| `RunTheorems.EventDiscipline` | cva6-master/perf-model/model.py:457-509 | a retired instruction has exactly one issue, done and commit event; done is two cycles after issue for loads, stores, multiplications and divisions and one for all others; commit is later and its last event, which is the assertion of `write_trace` |
| `RunTheorems.NoReadBeforeWrite` | cva6-master/perf-model/model.py:437-448 | an instruction that reads a nonzero register, as `rs1` or as `rs2`, issues no earlier than the done cycle of any earlier writer of that register (forwarding) or than its commit (no forwarding) |
| `RunTheorems.NoTwoWriters` | cva6-master/perf-model/model.py:437-448 | without renaming, no two scoreboard entries ever write the same nonzero register |
| `RunTheorems.PortsExclusive` | cva6-master/perf-model/model.py:273-344 | over the whole run, two instructions served through the same write-back port are never done in the same cycle |
| `RunTheorems.UnitServesClass` | cva6-master/perf-model/model.py:262-271 | branches and jumps are served by the branch unit, multiplications and divisions by the multiplier, loads and stores by the memory unit, everything else by one of the ALUs |
| `Schedule.IssueRule` | cva6-master/perf-model/model.py:457-478 | in every slot of every cycle of a run, the next instruction of the trace issues if and only if the scoreboard has room, no entry makes it wait for a register, no earlier issue blocks its unit, and its bytes are there; an ALU operation then goes to the second ALU exactly when that is there and unused |
| `Schedule.HazardFreeIff` | cva6-master/perf-model/model.py:437-448 | no data hazard is found if and only if every register an entry writes is overwritten only with renaming and read, through either operand, only when it can be forwarded |
| `Schedule.HazardLog` | cva6-master/perf-model/model.py:437-448 | a RAW or WAW event is logged exactly when some entry's register is read too early or overwritten |
| `Schedule.ReadyIff` | cva6-master/perf-model/model.py:292-300 | a unit is ready exactly when the instructions issued in this cycle, and the multiplications of the cycle before, leave it and its port free |
| `Schedule.ExactAtSlot` | cva6-master/perf-model/model.py:273-344 | in every slot of a run, each busy flag tells exactly which units were used in this cycle and whether a multiplication was issued in the last one |
| `Schedule.MissDelay` | cva6-master/perf-model/model.py:410-426 | over the whole run, a successor of a branch or register jump whose prediction was never found right issues at least six cycles after it |
| `Schedule.BranchCheck` | cva6-master/perf-model/model.py:410-426 | what one examination does to the bytes (emptied before the sixth cycle on a wrong prediction, one jump at the first right prediction of a taken branch, nothing else) and the verdict it logs, once per kind |
| `Schedule.JumpExact` | cva6-master/perf-model/model.py:127-165 | a jump leaves the largest number of whole fetches, without the fetch that just came |
| `Schedule.CycleRetires` | cva6-master/perf-model/model.py:494-519 | each cycle retires exactly the longest run of entries at the front of the scoreboard that were done before it, one per port, with a store only first; an entry is done one latency after its issue |
| `Schedule.CommitRule` | cva6-master/perf-model/model.py:494-519 | the same for any state and any number of ports |
| `Schedule.DoneInSlot` | cva6-master/perf-model/model.py:480-492 | within a cycle, the entries whose latency has passed are done before anything issues |
| `Schedule.CycleBytes` | cva6-master/perf-model/model.py:105-119 | a run starts with one fetch, the issue stage starts from the bytes of the last cycle, has as many slots as the issue width and is followed by one fetch |
| `StraightLine.BytesHeld` | cva6-master/perf-model/model.py:105-165 | on a trace without branches and jumps, in every slot the queue holds exactly the bytes fetched so far less those up to the next instruction |
| `Ports.IssueKeepsPorts` | cva6-master/perf-model/model.py:302-335 | issuing keeps all pairs of same-port instructions in different finishing cycles, and the busy flags tell which finishing cycles are taken |
| `RunTheorems.RemovalsOnBoundaries` | cva6-master/perf-model/model.py:105-165 | on a sequential trace, whenever an issue slot removes an instruction the byte count is congruent to 0 or to minus its address; after the bytes are taken it is non-negative and congruent to minus the next address; and it is never below minus one fetch |
| `RunTheorems.FetchInvariant` | cva6-master/perf-model/model.py:410-426 | on a sequential trace the counting invariant, and the promptness of first examinations it rests on, hold at the start of every cycle |
| `FetchArithmetic.ConsumeAligned` | cva6-master/perf-model/model.py:144-165 | from a count standing at the instruction, removal takes exactly its bytes |
| `FetchArithmetic.ConsumeAtBoundary` | cva6-master/perf-model/model.py:136-165 | from a fetch boundary, removal also takes the bytes in front of the target, and enough were there |
| `FetchArithmetic.RemovalCounts` | cva6-master/perf-model/model.py:144-150 | where the count stands after a removal, for a jump and for any other instruction |
| `FetchArithmetic.IssueKeepsSoon` | cva6-master/perf-model/model.py:457-471 | a successor not examined yet is at most two cycles late after an issue slot |
| `FetchQueue.TruncateMeaning` | cva6-master/perf-model/model.py:159-165 | truncation goes down by less than a fetch to a length congruent to minus the index |
| `FetchQueue.TruncateLargest` | cva6-master/perf-model/model.py:159-165 | no longer length with that congruence is at most the old one |
| `Returns.BoundedIsTopOfIdeal` | cva6-master/perf-model/model.py:171-214 | after any instructions, the bounded stack is the top part of an unbounded stack and within its capacity |
| `Returns.ReturnPrediction` | cva6-master/perf-model/model.py:187-214 | after a return, the address read is its matching call's next address if the calls nested in between fitted, and none otherwise |
| `Returns.NestedReturnsPredicted` | cva6-master/perf-model/model.py:171-214 | on a properly nested trace within the capacity, every return has a matching call and is predicted to it |
| `RunTheorems.PredictedReturn` | cva6-master/perf-model/model.py:394-408 | in any state of any run, the prediction after a return is the address after its call exactly when no call was nested in between, and address 0 otherwise |
| `Predictions.PredictedBranch` | cva6-master/perf-model/model.py:387-408 | in any state of any run, a branch is predicted at its target if and only if the two-bit walk over the committed outcomes of its table entry stands at 2 or 3 or, without any, its displacement is negative; and at the address behind it otherwise |
| `Predictions.PredictedElsewhere` | cva6-master/perf-model/model.py:394-408 | a register jump that is no return and a return from no call are predicted at address 0; after anything else there is no prediction |
| `Predictions.GuessOfTable` | cva6-master/perf-model/model.py:387-392 | the pipeline's guess is the one that `MispredictionBound` bounds |
| `Predictions.TrainedOnOutcomes` | cva6-master/perf-model/model.py:428-435 | the table of a run is the one that `MispredictionBound` is about, trained on the branches among the committed instructions, taken when the next committed address is not behind the branch |
| `Predictions.RunMisses` | cva6-master/perf-model/model.py:220-252 | on the committed branches of any run, each of the 128 entries of the run's own table is wrong at most twice per block of equal outcomes |
| `Predictions.Walk` | cva6-master/perf-model/model.py:239-250 | two equal outcomes in a row decide the guess, three saturate the counter, which stays in 0 to 3 |
| `Predictions.EntryWalks` | cva6-master/perf-model/model.py:220-252 | entry `address / 2 % 128` holds the walk over its outcomes, and is valid once there is one |
| `Mispredictions.MispredictionBound` | cva6-master/perf-model/model.py:220-252 | on each table entry, for any interleaving of branches, at most two mispredictions per maximal run of equal outcomes, static fallback included; counters stay in 0 to 3 |
| `Mispredictions.MissesPerRun` | cva6-master/perf-model/model.py:387-392 | the stronger invariant: misses so far plus those still possible in the current direction are at most twice the runs |
| `Hazards.NoHazardMeans` | cva6-master/perf-model/model.py:437-448 | no hazard is logged exactly when no scoreboard entry causes one; `Schedule.HazardFreeIff` says when an entry does |
| `Runs.AfterInv` | cva6-master/perf-model/model.py:533-548 | all invariants together at the start of every cycle of every run |
| `Runs.AtSlotInv` | cva6-master/perf-model/model.py:511-519 | all invariants together before every issue slot of every cycle |
| `Scheduler.IqLen.constructor` | cva6-master/perf-model/model.py:107-113 | the fetch size is the least power of two of at least four that reaches the width |
| `Scheduler.IqLen.AddrIndex` | cva6-master/perf-model/model.py:152-153 | masking with `fetch_size - 1` is the remainder modulo the fetch size, also for negative counts |
| `Scheduler.IqLen.Truncate` | cva6-master/perf-model/model.py:159-165 | in place, the truncation of `FetchQueue` |
| `Scheduler.IqLen.Jump` | cva6-master/perf-model/model.py:127-134 | in place, the lost fetch and truncation of `FetchQueue` |
| `Scheduler.IqLen.Has` | cva6-master/perf-model/model.py:136-142 | the queue holds the instruction, counting what a crossing instruction needs |
| `Scheduler.IqLen.Remove` | cva6-master/perf-model/model.py:144-150 | in place, the removal of `FetchQueue` |
| `Scheduler.Ras.Resolve` | cva6-master/perf-model/model.py:206-214 | in place, the return-stack update that the theorems of `Returns` are about |
| `Scheduler.Bht.Resolve` | cva6-master/perf-model/model.py:239-252 | in place, only the entry of the address changes, as the bound of `Mispredictions` assumes |
| `Scheduler.FusBusy.Issue` | cva6-master/perf-model/model.py:302-335 | for a ready unit, the assertion on the ALU holds and the flags become those of the port invariant |
| `Scheduler.FusBusy.Cycle` | cva6-master/perf-model/model.py:337-344 | in place, the flags at the start of a cycle |
| `Scheduler.Model.constructor` | cva6-master/perf-model/model.py:353-377 | a new model is the initial state of the theorems, in a valid configuration |
| `Scheduler.Model.PredictPc` | cva6-master/perf-model/model.py:387-408 | in place, the prediction whose value over runs is `PredictedBranch`, `PredictedReturn` and `PredictedElsewhere` |
| `Scheduler.Model.IssueManageLastBranch` | cva6-master/perf-model/model.py:410-426 | the queue and the logged event are those of `Pipeline.ManageLastBranch`; nothing else changes |
| `Scheduler.Model.FindDataHazards` | cva6-master/perf-model/model.py:437-448 | the events of the loop in order, and whether there is one, which is `HazardFreeIff` |
| `Scheduler.Model.FindStructuralHazard` | cva6-master/perf-model/model.py:450-455 | the logged event, and whether there is one |
| `Scheduler.Model.TryIssue` | cva6-master/perf-model/model.py:457-478 | the whole new state is the issue step of the theorems |
| `Scheduler.Model.TryExecute` | cva6-master/perf-model/model.py:480-492 | the whole new state is the execute step of the theorems |
| `Scheduler.Model.CommitManageLastBranch` | cva6-master/perf-model/model.py:428-435 | the branch history is updated when the successor of a branch commits |
| `Scheduler.Model.TryCommit` | cva6-master/perf-model/model.py:494-509 | the whole new state is the commit step of the theorems |
| `Scheduler.Model.RunCycle` | cva6-master/perf-model/model.py:511-519 | the whole new state is one cycle of the theorems |
| `Scheduler.Model.Run` | cva6-master/perf-model/model.py:533-548 | the loop terminates within the linear bound, stops at the first finished cycle, returns its number, and without a cycle limit retires the whole trace |
| `BitFields.SignExtMeaning` | cva6-master/perf-model/isa.py:86-99 | `to_signed` after `sign_ext` is the two's complement value, for every sign bit below the width |
| `BitFields.TwosComplementRoundTrip` | cva6-master/perf-model/model.py:32-36 | every integer in range is recovered from its low bits |
| `Immediates.DecodeIffEncoded` | cva6-master/perf-model/isa.py:117-171 | for any gap-free layout, the decoder reads an immediate exactly when the word scatters it as the layout says |
| `Immediates.DecodesStandard` | cva6-master/perf-model/isa.py:117-396 | the shifts and masks of the format classes gather the pieces of the standard's layouts (sections 2.3 and 16.2 to 16.5 of the RISC-V Unprivileged ISA), for every layout and word |
| `Immediates.SignedRoundTrip` | cva6-master/perf-model/isa.py:117-171 | for I, S, B, J and the signed compressed layouts, the decoder's expression, sign-extended, is a given integer in range exactly when the word encodes it as the standard says |
| `Immediates.UnsignedRoundTrip` | cva6-master/perf-model/isa.py:220-396 | the same for the zero-extended immediates of every layout |
| `Immediates.CompressedJumpOffset` | cva6-master/perf-model/isa.py:398-410 | a C.J or C.JAL offset in the layout of section 16.4 of the RISC-V Unprivileged ISA survives exactly when its bits 4 to 2 are zero |
| `Immediates.CompressedJumpLosesFour` | cva6-master/perf-model/isa.py:398-410 | an offset of 4 is not decoded as 4 |
| `Isa.DecodeValid` | cva6-master/perf-model/isa.py:482-567 | every decoded word is an instruction the scheduler's theorems apply to, with calls and returns only on jumps and registers below 32 |
| `Opcodes.DecodesListed` | cva6-master/perf-model/isa.py:412-549 | a word decodes exactly when its opcode (32-bit) or quadrant and funct3 (compressed) is among the modelled ones of the standard's listing, and then to the class, register operands and call and return marks of that listing |
| `Isa.BranchOffset` | cva6-master/perf-model/isa.py:138-150 | a branch decodes to a displacement exactly when its word encodes that displacement |
| `Isa.TakenBranchTarget` | cva6-master/perf-model/model.py:400-408 | in any state, the predicted successor of a branch word is its architectural target when the counter of entry `address / 2` is 2 or 3, or it has no history and goes backwards; otherwise the address two or four bytes on |
| `Isa.StaticPrediction` | cva6-master/perf-model/model.py:387-392 | an untrained branch is predicted taken exactly when its displacement is negative |
| `Golden.GoldenAgreement` | cv-hpdcache-master/rtl/tb/include/hpdcache_test_scoreboard.h:414-1110 | over any one-at-a-time run of loads, stores, AMOs, LRs, SCs and cache management operations where no byte that can be compared is confused or tainted, every such byte known to the shadow is the byte in memory, no error is reported and nothing stays in flight |
| `Golden.TransactSilent` | cv-hpdcache-master/rtl/tb/include/hpdcache_test_scoreboard.h:513-650 | one transaction of any kind, with or without a cache hit and in or out of error segments, keeps the agreement and reports nothing |
| `Golden.TaintAgrees` | cv-hpdcache-master/rtl/tb/include/hpdcache_test_scoreboard.h:940-973 | the zero data of an erroring AMO, filled into the unset bytes, keeps the agreement on the bytes that can be compared |
| `Golden.AmoAgrees` | cv-hpdcache-master/rtl/tb/include/hpdcache_test_scoreboard.h:752-771 | an AMO without error refills the old bytes, passes the data check and leaves the same result on both sides |
| `FalseReports.SilentIff` | cv-hpdcache-master/rtl/tb/sc_verif_lib/modules/mem_model/include/ram_model.h:52-91 | from a given memory, with any error segments, no valid run is reported if and only if no two comparable bytes share a place in the RAM and every comparable byte whose place an erroring AMO reaches is zero |
| `FalseReports.SilentForEveryMemory` | cv-hpdcache-master/rtl/tb/include/hpdcache_test_mem_resp_model.h:212-229 | whatever the memory holds, no valid run is reported if and only if, besides, no place is reached by an erroring AMO and read without error |
| `FalseReports.SilentIffNoAlias` | cv-hpdcache-master/rtl/tb/sc_verif_lib/modules/mem_model/include/ram_model.h:52-91 | without error segments, no valid run is reported if and only if no two words in use are a multiple of 16 MiB apart |
| `FalseReports.ClashReported` | cv-hpdcache-master/rtl/tb/sc_verif_lib/modules/mem_model/include/ram_model.h:77-91 | a correct store and load, without cache hit, that are reported, for any two comparable bytes that share a place |
| `FalseReports.TaintReported` | cv-hpdcache-master/rtl/tb/include/hpdcache_test_scoreboard.h:940-973 | a correct AMO and load that are reported, for any tainted place with a nonzero comparable byte |
| `FalseReports.RandomTestTaint` | cv-hpdcache-master/rtl/tb/sequence_lib/hpdcache_test_random_seq.h:347-354 | with the random test's error segments, one 8-byte AMO at address 0 makes the shadow take byte 0 for zero while memory holds one |
| `FalseReports.SplitWordReported` | cv-hpdcache-master/rtl/tb/include/hpdcache_test_mem_resp_model.h:212-229 | with an error segment on the lower half of a word, an 8-byte AMO and a correct load of the upper half are reported |
| `Golden.AmoSameBytes` | cv-hpdcache-master/rtl/tb/include/hpdcache_test_scoreboard.h:752-771 | scoreboard and memory store the same bytes for an AMO, though one works from the response and the other from memory |
| `Board.ResponseReported` | cv-hpdcache-master/rtl/tb/include/hpdcache_test_scoreboard.h:652-798 | a response is reported exactly when its error flag, a known covered byte, or its SC status is wrong |
| `Checks.AnswerReported` | cv-hpdcache-master/rtl/tb/include/hpdcache_test_scoreboard.h:414-798 | a core request that is taken, any other events, then its answer: the answer is reported exactly when its error flag is wrong, or a byte of it contradicts a byte the shadow knew at the request (loads, LR and AMO), or the status of an SC is wrong |
| `Checks.WrongKnownByteReported` | cv-hpdcache-master/rtl/tb/include/hpdcache_test_scoreboard.h:518-750 | in particular, a wrong known byte of a load, an LR or an AMO outside error segments is reported |
| `Checks.RequestReported` | cv-hpdcache-master/rtl/tb/include/hpdcache_test_scoreboard.h:414-616 | a core request is reported exactly when its identifier is in flight or its atomic operation finds sixteen waiting |
| `Checks.RequestAnnounced` | cv-hpdcache-master/rtl/tb/include/hpdcache_test_scoreboard.h:607-616 | LR, AMO and an SC that finds the reservation are announced in order, and nothing else |
| `Checks.StoreEffect` | cv-hpdcache-master/rtl/tb/include/hpdcache_test_scoreboard.h:618-640 | a store outside error segments makes its enabled bytes known at once; no other request changes the shadow |
| `Checks.ResponseEffect` | cv-hpdcache-master/rtl/tb/include/hpdcache_test_scoreboard.h:690-791 | a response makes known the bytes of an SC that succeeded and the result of an AMO, and nothing else |
| `Checks.ReadRequestEffect` | cv-hpdcache-master/rtl/tb/include/hpdcache_test_scoreboard.h:800-863 | when a memory read request is reported, and what it leaves pending |
| `Checks.ReadResponseEffect` | cv-hpdcache-master/rtl/tb/include/hpdcache_test_scoreboard.h:865-996 | a response without error makes known exactly the unknown bytes of its request, with the data of their lane |
| `Checks.WriteRequestReported` | cv-hpdcache-master/rtl/tb/include/hpdcache_test_scoreboard.h:998-1082 | when a memory write request is reported: a pending identifier, or an atomic one without exactly one atomic operation waiting, a core request on its line and, for a store-exclusive, the reservation |
| `Checks.WriteRequestEffect` | cv-hpdcache-master/rtl/tb/include/hpdcache_test_scoreboard.h:998-1082 | what it leaves pending and takes from the fifo |
| `Checks.WriteResponseEffect` | cv-hpdcache-master/rtl/tb/include/hpdcache_test_scoreboard.h:1084-1110 | when a memory write response is reported, and that it decides the atomicity of the SC |
| `Board.ShadowWriteMeaning` | cv-hpdcache-master/rtl/tb/sc_verif_lib/modules/mem_model/include/ram_model.h:77-91 | a shadow write makes exactly the enabled bytes known, with their data, and leaves the others |
| `Board.WrongBytesMeaning` | cv-hpdcache-master/rtl/tb/include/hpdcache_test_scoreboard.h:731-750 | the data check is silent exactly when every known byte of the access is right |
| `MemoryModel.WriteMeaning` | cv-hpdcache-master/rtl/tb/include/hpdcache_test_mem_resp_model.h:274-299 | a write changes exactly the enabled bytes of the words it covers, to the data or the AMO result |
| `MemoryModel.GatherMeaning` | cv-hpdcache-master/rtl/tb/include/hpdcache_test_mem_resp_model.h:169-195 | a read returns every requested word in its lane |
| `MemoryModel.WriteEffect` | cv-hpdcache-master/rtl/tb/include/hpdcache_test_mem_resp_model.h:197-320 | errors occur exactly in error segments and change no state; a store or store-exclusive that does not go through leaves memory alone, and one that does changes exactly the addresses inside the access (whole words, from one up to a flit of 64 bytes) whose enable is set, to the data in their lane |
| `MemoryModel.ReadEffect` | cv-hpdcache-master/rtl/tb/include/hpdcache_test_mem_resp_model.h:122-195 | errors occur exactly in error segments; otherwise each address of the access is returned in lane `a / 8 % 8`, byte `a % 8`, and the rest of the flit is zero |
| `MemoryModel.AlignedTouches` | cv-hpdcache-master/rtl/tb/include/hpdcache_test_mem_resp_model.h:159-160 | for accesses of whole aligned words, the addresses touched are the interval of the access |
| `MemoryModel.RegionVerdict` | cv-hpdcache-master/rtl/tb/include/hpdcache_test_mem_resp_model_base.h:224-232 | an access errs exactly when the first segment with which it shares an address is an error segment |
| `MemoryModel.OverlapIff` | cv-hpdcache-master/rtl/tb/include/hpdcache_test_mem_resp_model_base.h:216-222 | the test on the bounds finds exactly a common address |
| `Amo.CoreUnitCorrect` | cv-hpdcache-master/rtl/tb/include/hpdcache_test_amo.h:44-89 | for 4- and 8-byte operands, the core AMO unit computes section 8.4 of the RISC-V Unprivileged ISA in the bytes of the access |
| `Amo.UnitsAgree` | cv-hpdcache-master/rtl/tb/include/hpdcache_test_mem_resp_model_base.h:234-270 | the memory AMO unit, on the operand the cache sends (complemented for AND), agrees with the core unit |
| `Amo.ArchitecturalMeaning` | cv-hpdcache-master/rtl/tb/include/hpdcache_test_amo.h:44-89 | AND, OR and XOR bit by bit, the maximum and minimum as the extreme of the two readings, the sum modulo the size |
| `AmoLanes.AmoWrite` | cv-hpdcache-master/rtl/tb/include/hpdcache_test_mem_resp_model.h:239-313 | an AMO changes memory only in the addressed bytes, which become the architectural result, and the read response carries the old bytes in their lane |
| `AmoLanes.MemoryLane` | cv-hpdcache-master/rtl/tb/include/hpdcache_test_mem_resp_model.h:239-272 | the same for the word that the AMO stores and the one it returns |
| `AmoLanes.BoardLane` | cv-hpdcache-master/rtl/tb/include/hpdcache_test_scoreboard.h:752-771 | the scoreboard's own AMO word is the architectural result in the bytes of the access |
| `AmoLanes.SentValue` | cv-hpdcache-master/rtl/src/hpdcache_uncached.sv:670-725 | the operand sent for AND is the complement within the access, and the operand itself for the others |
| `Reservations.AtomicScHistory` | cv-hpdcache-master/rtl/tb/include/hpdcache_test_scoreboard.h:542-605 | after any events seen by the scoreboard, an SC is marked atomic exactly when the most recent LR was outside error segments, its word is covered by the SC, and no SC and no covering store or AMO came in between (section 8.2 of the RISC-V Unprivileged ISA) |
| `Reservations.ReservationOfRun` | cv-hpdcache-master/rtl/tb/include/hpdcache_test_scoreboard.h:542-605 | over any run of all six processes, the reservation is a function of the core requests alone, duplicates left out |
| `Reservations.BufferHistory` | cv-hpdcache-master/rtl/tb/include/hpdcache_test_scoreboard.h:542-605 | the buffer is valid exactly when such an LR exists, and then holds its address |
| `Reservations.CoversMeaning` | cv-hpdcache-master/rtl/tb/include/hpdcache_test_scoreboard.h:570-580 | inside a cache line, the address match is membership in the interval of 64-bit words accessed |
| `Reservations.SucceedsIff` | cv-hpdcache-master/rtl/tb/include/hpdcache_test_mem_resp_model.h:231-237 | a store-exclusive is acknowledged as atomic if and only if it is outside error segments and an overlapping load-exclusive of its identifier came before it with no other exclusive of that identifier in between |
| `Reservations.OneSuccessPerReservation` | cv-hpdcache-master/rtl/tb/include/hpdcache_test_mem_resp_model.h:162-167 | between two successes of an identifier there is a load-exclusive of that identifier |
| `Reservations.ExclHistory` | cv-hpdcache-master/rtl/tb/include/hpdcache_test_mem_resp_model.h:162-167 | the buffer of an identifier is valid exactly when a load-exclusive is pending, and then holds its range |
| `TransactionIds.IdPool.IsAvailableId` | cv-hpdcache-master/rtl/tb/include/hpdcache_test_sequence.h:117-117 | it answers whether some identifier is free |
| `TransactionIds.IdPool.AllocateId` | cv-hpdcache-master/rtl/tb/include/hpdcache_test_sequence.h:119-135 | the probe terminates whenever an identifier is free and hands out the first free one going up cyclically from the random start |
| `TransactionIds.IdPool.DeallocateId` | cv-hpdcache-master/rtl/tb/include/hpdcache_test_sequence.h:137-146 | exactly the identifier is removed, and an error is reported exactly when it was not allocated |
| `TransactionIds.SomeFree` | cv-hpdcache-master/rtl/tb/include/hpdcache_test_sequence.h:117-135 | the pigeonhole: fewer than n distinct identifiers below n leave one free |
| `TransactionIds.ProtocolSound` | cv-hpdcache-master/rtl/tb/include/hpdcache_test_scoreboard.h:414-798 | over every disciplined run of the scoreboard's processes, allocated identifiers are the disjoint union of requests on their way and requests in flight, requests needing a response are responses plus in-flight ones, and no identifier report is reachable |
| `TransactionIds.ReadSound` | cv-hpdcache-master/rtl/tb/include/hpdcache_test_scoreboard.h:607-648 | reading a request keeps all that if and only if an atomic operation finds room in the fifo |
| `TransactionIds.ResponseSound` | cv-hpdcache-master/rtl/tb/include/hpdcache_test_scoreboard.h:684-687 | reading a response to a request in flight keeps all that if and only if its error flag is the expected one |
| `TransactionIds.FullFifoLeaks` | cv-hpdcache-master/rtl/tb/include/hpdcache_test_scoreboard.h:607-616 | an atomic request read with a full fifo leaks its identifier, and its response is reported as unknown |
| `TransactionIds.LeakStays` | cv-hpdcache-master/rtl/tb/include/hpdcache_test_scoreboard.h:792-796 | no disciplined step ever brings a leaked identifier back |
| `TransactionIds.SeventeenthAtomicLeaks` | cv-hpdcache-master/rtl/tb/include/hpdcache_test_scoreboard.h:607-616 | seventeen load-reserved requests without memory activity: the last one leaks, after a run that kept the discipline |
| `TransactionIds.WrongFlagUnbalances` | cv-hpdcache-master/rtl/tb/include/hpdcache_test_scoreboard.h:684-687 | a response with a wrong error flag is counted while its request stays in flight, so that the counters no longer balance |
| `TransactionIds.QuiescentRunBalances` | cv-hpdcache-master/rtl/tb/include/hpdcache_test_scoreboard.h:134-162 | once everything is answered, responses equal requests that need one and no identifier is left |
| `TestBench.MemRespModel.InErrorRegion` | cv-hpdcache-master/rtl/tb/include/hpdcache_test_mem_resp_model_base.h:224-232 | the loop finds the verdict of the first overlapping segment |
| `TestBench.MemRespModel.WriteMemory` | cv-hpdcache-master/rtl/tb/sc_verif_lib/modules/mem_model/include/mem_model.h:82-106 | one word changes, in its enabled bytes |
| `TestBench.MemRespModel.Read` | cv-hpdcache-master/rtl/tb/include/hpdcache_test_mem_resp_model.h:122-195 | state and response are those of the read that `ReadEffect` describes address by address |
| `TestBench.MemRespModel.Write` | cv-hpdcache-master/rtl/tb/include/hpdcache_test_mem_resp_model.h:197-320 | state and both responses are those of the write that `WriteEffect` and `AmoWrite` describe address by address |
| `TestBench.Scoreboard.CoreRequest` | cv-hpdcache-master/rtl/tb/include/hpdcache_test_scoreboard.h:414-650 | the whole new state is the request step, with all its early exits, whose effect is `AnswerReported` and `StoreEffect` |
| `TestBench.Scoreboard.CheckBytes` | cv-hpdcache-master/rtl/tb/include/hpdcache_test_scoreboard.h:731-750 | one report for each known byte of the access that is wrong |
| `TestBench.Scoreboard.CoreResponse` | cv-hpdcache-master/rtl/tb/include/hpdcache_test_scoreboard.h:652-798 | the whole new state is the response step of the theorems |
| `TestBench.Scoreboard.MemReadRequest` | cv-hpdcache-master/rtl/tb/include/hpdcache_test_scoreboard.h:800-863 | the whole new state after a memory read request |
| `TestBench.Scoreboard.UpdateReservation` | cv-hpdcache-master/rtl/tb/include/hpdcache_test_scoreboard.h:542-605 | the reservation and the entry's flags are those of the theorems |
| `TestBench.Scoreboard.MemReadResponse` | cv-hpdcache-master/rtl/tb/include/hpdcache_test_scoreboard.h:865-996 | only unset bytes of the request are filled, with the data of the response, for reads and for AMOs |
| `TestBench.Scoreboard.MemWriteRequest` | cv-hpdcache-master/rtl/tb/include/hpdcache_test_scoreboard.h:998-1082 | the whole new state after a memory write request, with its fifo and reservation checks |
| `TestBench.Scoreboard.FindCoreRequest` | cv-hpdcache-master/rtl/tb/include/hpdcache_test_scoreboard.h:1022-1034 | the search finds an in-flight request on the line exactly when there is one |
| `TestBench.Scoreboard.MemWriteResponse` | cv-hpdcache-master/rtl/tb/include/hpdcache_test_scoreboard.h:1084-1110 | the atomicity flag and the pending set after a write response |
| `TracePacket.ExtractBits` | cva6-master/corev_apu/instr_tracing/Decapsuler/Decapsuler.cpp:31-45 | the loop computes the slice of the packet read as one big-endian integer, for every length up to 64 |
| `TracePacket.BitOfInteger` | cva6-master/corev_apu/instr_tracing/Decapsuler/Decapsuler.cpp:37-40 | the byte and bit indices address the bits of that integer |
| `TracePacket.BitExtractor.Extract` | cva6-master/corev_apu/instr_tracing/Decapsuler/Decapsuler.cpp:76-86 | the cursor moves by the bits read, whose value is the slice passed over, in both directions |
| `TracePacket.BitExtractor.To` | cva6-master/corev_apu/instr_tracing/Decapsuler/Decapsuler.cpp:75-75 | the rest up to a bit, or 0xdead when the unsigned difference wraps |
| `TracePacket.ReadReport` | cva6-master/corev_apu/instr_tracing/Decapsuler/Decapsuler.cpp:183-220 | the report block that formats 1 and 2 share |
| `TracePacket.ReadSync` | cva6-master/corev_apu/instr_tracing/Decapsuler/Decapsuler.cpp:137-180 | every subformat of format 3 |
| `TracePacket.ReadTrace` | cva6-master/corev_apu/instr_tracing/Decapsuler/Decapsuler.cpp:122-221 | the constructor, cursor by cursor, decodes the packet's integer as the round trips require, never reading outside the packet |
| `TracePacket.SizeBound` | cva6-master/corev_apu/instr_tracing/Decapsuler/Decapsuler.cpp:128-133 | the payload always ends below the header |
| `PacketRoundTrip.PacketRoundTrip` | cva6-master/corev_apu/instr_tracing/Decapsuler/Decapsuler.cpp:122-221 | for every packet of formats 0 to 3 (chapter 7 of Efficient Trace for RISC-V) whose address fits its payload and 32 bits, decoding the bytes encoded with the widths of the standard returns the fields exactly when the address field has at most 64 bits |
| `PacketRoundTrip.MapWidthIff` | cva6-master/corev_apu/instr_tracing/Decapsuler/Decapsuler.cpp:193-207 | the decoder's map width is the least of 1, 3, 7, 15 and 31 that holds the branches, and 31 for none |
| `PacketRoundTrip.AddressDecoded` | cva6-master/corev_apu/instr_tracing/Decapsuler/Decapsuler.cpp:122-221 | for any packet at all, the address is the low 32 bits of the field from the end of the fixed fields to the end of the payload, or 0xdead when that has more than 64 bits or ends before it starts |
| `PacketRoundTrip.RoundTrip0` | cva6-master/corev_apu/instr_tracing/Decapsuler/Decapsuler.cpp:122-135 | format 0: the header alone |
| `PacketRoundTrip.RoundTrip1` | cva6-master/corev_apu/instr_tracing/Decapsuler/Decapsuler.cpp:193-220 | format 1, encoded with the map width of `MapWidth`, with and without branches, including what a too wide address becomes |
| `PacketRoundTrip.RoundTrip2` | cva6-master/corev_apu/instr_tracing/Decapsuler/Decapsuler.cpp:182-191 | format 2 |
| `PacketRoundTrip.RoundTrip30` | cva6-master/corev_apu/instr_tracing/Decapsuler/Decapsuler.cpp:143-151 | format 3, subformat 0 |
| `PacketRoundTrip.RoundTrip31` | cva6-master/corev_apu/instr_tracing/Decapsuler/Decapsuler.cpp:152-164 | format 3, subformat 1 |
| `PacketRoundTrip.RoundTrip32` | cva6-master/corev_apu/instr_tracing/Decapsuler/Decapsuler.cpp:165-171 | format 3, subformat 2 |
| `PacketRoundTrip.RoundTrip33` | cva6-master/corev_apu/instr_tracing/Decapsuler/Decapsuler.cpp:172-178 | format 3, subformat 3 |
| `PacketRoundTrip.WideAddressLost` | cva6-master/corev_apu/instr_tracing/Decapsuler/Decapsuler.cpp:31-45 | an encodable format 2 packet of 31 bytes whose address 0x80000000 is decoded as 0xdead |
| `PacketRoundTrip.PacketInteger` | cva6-master/corev_apu/instr_tracing/Decapsuler/Decapsuler.cpp:25-29 | the bytes of a packet stand for the integer they were made from |
| `FaultMask.InjectDatFault` | cv-hpdcache-master/rtl/tb/include/hpdcache_fault_injection.h:143-186 | for word widths 39 and 72 and any way, the 32-bit words read as one integer are the mask cut to the word width and shifted to the way's offset; all others are zero, indices are in bounds |
| `FaultMask.SplitMask` | cv-hpdcache-master/rtl/tb/include/hpdcache_fault_injection.h:159-184 | the head, middle and tail loop, for any offset |
| `FaultMask.InjectDirFault` | cv-hpdcache-master/rtl/tb/include/hpdcache_fault_injection.h:116-141 | the same at offset 0 for directory words of up to 64 bits |
| `QemuTrace.TraceRoundTrip` | cv-hpdcache-master/rtl/tb/qemu_plugin/qemu_plugin.c:160-179 | for every list of accesses, the file can be read to the end as that list exactly when at least two bytes are left for the exit handler |
| `QemuTrace.FullBufferHangs` | cv-hpdcache-master/rtl/tb/qemu_plugin/qemu_plugin.c:64-115 | after 5000 loads the exit handler never returns |
| `QemuTrace.LastByteLost` | cv-hpdcache-master/rtl/tb/qemu_plugin/qemu_plugin.c:64-115 | after 4091 loads the file lacks the last byte and cannot be read to the end |
| `QemuTrace.ParseEncodeAll` | cv-hpdcache-master/rtl/tb/qemu_plugin/qemu_plugin.c:305-329 | the written bytes parse to what the accesses mean: delay modulo 256, address in 49 bits, response for loads, data for stores |
| `QemuTrace.ParseEncode` | cv-hpdcache-master/rtl/tb/include/hpdcache_test_trace_manager.h:342-356 | one record, whatever follows it |
| `QemuTrace.RecordLayout` | cv-hpdcache-master/rtl/tb/qemu_plugin/qemu_plugin.c:305-329 | every byte of a record: delay, little-endian address, size codes, flags, little-endian value of a store |
| `QemuTrace.TruncatedTrace` | cv-hpdcache-master/rtl/tb/qemu_plugin/qemu_plugin.c:79-84 | a trace without its last byte cannot be read to the end |
| `QemuTrace.GetBitMeaning` | cv-hpdcache-master/rtl/tb/include/hpdcache_test_trace_manager.h:275-280 | the shifts of a signed char return the bit at the position, for all eight |
| `QemuTrace.Writer.WriteBuffer` | cv-hpdcache-master/rtl/tb/qemu_plugin/qemu_plugin.c:160-179 | flushed and buffered bytes together grow by exactly the data, wherever the flushes fall |
| `QemuTrace.Writer.CompressDataToFile` | cv-hpdcache-master/rtl/tb/qemu_plugin/qemu_plugin.c:64-115 | the chunk loop hands on the whole buffer from two bytes on, nothing for one byte, and does not end for none |
| `QemuTrace.Writer.WriteInFile` | cv-hpdcache-master/rtl/tb/qemu_plugin/qemu_plugin.c:305-329 | the stream grows by the record of the access |
| `QemuTrace.Writer.Exit` | cv-hpdcache-master/rtl/tb/qemu_plugin/qemu_plugin.c:403-410 | what the file holds at exit, as a function of all bytes written |
| `QemuTrace.Record` | cv-hpdcache-master/rtl/tb/qemu_plugin/qemu_plugin.c:340-393 | a whole execution leaves the file of its encoded accesses |
| `QemuTrace.Reader.GetContent` | cv-hpdcache-master/rtl/tb/include/hpdcache_test_trace_manager.h:188-215 | it returns the next bytes of the stream, also across refills inside a field |
| `QemuTrace.Reader.IsFinish` | cv-hpdcache-master/rtl/tb/include/hpdcache_test_trace_manager.h:220-220 | once reading has begun, it is true exactly when no byte is left |
| `QemuTrace.Reader.ReadTransaction` | cv-hpdcache-master/rtl/tb/include/hpdcache_test_trace_manager.h:222-356 | the field readers return the first record of the stream and leave the rest |
| `QemuTrace.Replay` | cv-hpdcache-master/rtl/tb/sequence_lib/hpdcache_test_from_trace_seq.h:61-76 | the requests replayed depend on the stream and the limit alone, not on how refills cut it up |

## Left out

- `Model.load_file`, `print_stats`, `display_scores`, `issue_commit_graph` and debug printing: input and output only; a run starts from a loaded trace.
- `Model.log`: the list of all events is never read; events are kept on their instructions.
- Instruction identity: instructions are values, so aliasing of one Python object in queue and scoreboard is not modelled; a `unit` field records which unit served an instruction, for the port theorems.
- Bases outside `Instr.type_of_base`: `Decode` returns None where the source raises KeyError.
- `AddrFields` and load or store offsets in `isa.py`: only their layouts are modelled; the scheduler never reads them. The 6-bit `opcode` fields are not modelled.
- Interrupts and exceptions in a trace: the fetch theorems assume that addresses follow each other except after branches, jumps and register jumps; all other theorems hold for any trace.
- RunTheorems.RemovalsOnBoundaries: the lower bound of minus one fetch is for sequential traces; on arbitrary traces the bound is two fetches (`Progress.RemoveBound`), because a jump can follow a late branch hit.
- Mispredictions.MispredictionBound: each branch is predicted and resolved before the next prediction on its entry; the pipeline may predict again before a commit, from the table of `PredictedBranch`.
- Predictions.RunMisses: the same; it bounds the run's own table on the run's own branches, not the BMISS events logged before a commit.
- Reset values: the LR/SC buffer and the exclusive buffers are invalid at reset; the source leaves them uninitialised.
- Golden.GoldenAgreement: one core operation at a time, naturally aligned inside one 64-bit word (the default request width), byte enables inside the access; outstanding atomics with later requests are not modelled, since the shadow is updated at the response.
- The cache itself: a transparent one that answers from memory, or from its copy on a load hit; the cache RTL, PLRU and `ENABLE_CACHE_DIR_VERIF` are not part of this model.
- TestBench.Scoreboard.MemReadResponse: the refill fills the unset bytes of a request of at most one word, as its comment says; the source's lane arithmetic, which misses most lanes, and refills of whole lines are not modelled.
- TestBench.Scoreboard.CoreRequest: requests lie inside one 64-bit word, the default request width; builds with more request words accept wider ones.
- TestBench.MemRespModel.Read: one flit per request (`len` = 0); at the default memory width of 512 bits a flit holds a whole cache line, other widths are not modelled.
- Random memory contents: a function `init` gives the value found when a word is first touched.
- Cache management operations: a prefetch reads memory like a load; the others are answered by the cache alone and have no effect on the model.
- TransactionIds.ProtocolSound: the discipline excludes reading an atomic request while the fifo is full and a response with an unexpected error flag; what they break is `ReadSound` and `ResponseSound`.
- SystemC processes, signals, delays and randomisation: each process body is one atomic step; the random start of an identifier probe is a parameter.
- CSV and hexadecimal input and output of the decapsulator, the fields its constructor never sets, and the device receiver that repeats its parser.
- PacketRoundTrip.PacketRoundTrip: packets whose address fits its payload and 32 bits; other addresses cannot be held by the decoder's 32-bit field.
- DPI scopes and simulator calls of the fault injection: the words handed over are the result.
- Compression of the memory trace: the compressor and decompressor hand chunks on unchanged, and a refill delivers at least one byte while there is one; the failure of an allocation at exit is not modelled.
- QemuTrace.Writer.CompressDataToFile: the compressor is the identity on chunks; what an unfinished deflate stream loses besides is not modelled.
- QemuTrace.Writer.Exit: what the file holds under that identity; an unfinished stream may lose more.
- QemuTrace.TraceRoundTrip: the identity compressor; 64-bit targets, binary mode, values of 8 to 64 bits, size shifts below 8; 128-bit values, 32-bit addresses and the text mode are not modelled.
- Build, continuous-integration, documentation and vendor scripts, boot ROM, ELF and debug-transport helpers.
