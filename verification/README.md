# A verified model of a JAM state machine

The repository is a deterministic state machine for JAM (the JAM Gray Paper, tiny parameters). This
project models its hardest parts in Dafny and proves what they promise for every input and every run.

- **Virtual machine** (`PvmArith`, `PagedMemory`, `PvmProgram`, `PvmExecute`, `PvmLaws`, `PvmGas`, `PvmVm`,
  `StandardProgram`, `StandardContainer`). Registers, paged memory, basic blocks, checked jumps and gas. The
  interpreter gates a basic block on its whole cost but deducts one unit per instruction; the documented machine
  deducts the whole block on entry. The two are proved equal from block starts, with the exact difference
  elsewhere. From a standard program image no run of instructions ever leaves its memory sandbox.
- **Codec** (`Codec`, `OperandDecode`). Compact integers and operand lists, with both of the repository's
  readers.
- **Host calls** (`ServiceIds`, `ServiceState`, `ServiceRun`, `ServiceLaws`, `ServiceCalls`, `ServiceSupply`,
  `ServiceRounds`, `ServiceFootprint`). Accounts, the dictionary behind them, checkpoint rollback, deferred
  transfers. Exactly when token supply is conserved, the cached footprint of every account agrees with the
  dictionary, and handed-out service ids are fresh, for single calls and throughout runs.
- **Accumulation queue** (`Queue`, `QueueRings`, `QueueLaws`, `QueueWaiting`). Dependency editing, the priority
  order, the gas cut, and the two 12-bucket rings over whole runs with gaps between slots.
- **Block step** (`BlockImport`, `BlockCores`, `BlockSafety`, `BlockForgetting`, `BlockWaiting`). A work package
  moves from a core to the waiting queue to the accumulated ring and is never in two of these places, because
  the 5-slot timeout fits inside the 8-block history of the duplicate check.
- **Ticket contest** (`Safrole`, `SafroleLaws`, `SafroleRun`). The accumulator, the winning-tickets mark and the
  sealing keys over whole epochs.
- **Commitments** (`Trie`, `Mmr`, `MerkleProofs`) and **guarantor assignment** (`Guarantors`).
- `Base` holds integer widths, byte strings, finite sums and arithmetic lemmas.

Code that changes state is a class or a method with loops (`PagedMemory.Memory`, `PvmVm.Vm`,
`ServiceRun.Service`, `Mmr.MountainRange`, and the methods named below). Each is proved against a function of
its inputs or its old state, and the properties are lemmas about that function. The modules named `...Laws`,
`BlockCores`, `ServiceRounds`, `StandardContainer`, `OperandDecode` and `MerkleProofs` say what those functions do
from outside: on registers, bytes, opcodes and slots, through decoders, and with constants written out.

## Conventions

- Fixed-width integers are subset types; wrap-around, saturation and truncation are written out. Bitwise `or`
  and `shift` on disjoint bits appear as addition and as multiplication or division by a power of two.
- A 32-byte hash or ticket id whose byte order matters (queue, rings, tickets) is a natural number read
  big-endian. Where bytes matter (trie, mountain range, shuffle) a digest is 32 bytes.
- Hash functions, signature checks and ring proofs are parameters. Three results assume collision-freeness,
  only among the finitely many inputs that occur (`Trie.RootsEqualIff`, `Trie.RootBinds`, `Mmr.SuperPeakBinds`).
  State keys are injective constructors that keep the markers 2^32 - 1 and 2^32 - 2 visible.
- Panics and error returns are values: `None`, an error datatype, or an exit status.

## Where code and documentation differ

The model follows the code.

- docs/pvm.md shows whole-block deduction; src/pvm.rs deducts per instruction. `PvmGas.GasRefinement` shows they
  agree when execution enters blocks at their starts, and `PvmGas.FirstBlockDrift` gives the exact condition
  otherwise; `PvmGas.MidBlockDiverges` is an input on which they differ.
- src/trie.rs calls the root order-independent. It is, and it exists exactly if keys are distinct
  (`Trie.RootDefinedIff`); with equal keys the code would index past the key.
- src/safrole.rs says above `transition` that ring proofs are not verified; the code verifies them.
- src/reports.rs says "2-3 credentials" but checks only the lower bound; `Guarantors.TwoOrThreeCredentials`
  derives the upper one from the assignment.
- The footprint cache is not always exact, and can underflow: at the lengths 2^32 - 1 and 2^32 - 2 a request is
  the same entry as a storage value or a preimage blob. `ServiceFootprint.HostExactIff` and
  `ServiceFootprint.RunExactIff` give the exact condition for every call and every run, through
  `ServiceFootprint.SolicitExactIff`, `ServiceFootprint.ForgetExactIff` and `ServiceFootprint.NewCaches`.
  `ServiceFootprint.BareUnderflows` is an input of two calls after which a count would be -1.
- `new` on a live id or with a poor caller changes the supply: `ServiceSupply.NewConservesIff` gives the exact
  condition for a call and `ServiceSupply.RunWorthIff` for a run.
- src/pvm.rs stops counting a block at 1,000,001 instructions: `PvmGas.NoDriftIffUncut` says exactly when this
  shows, `PvmGas.LongBlockDrifts` is a program on which it does.
- Stores by host calls ignore write permission: `StandardProgram.ReadOnlyOverwritten` overwrites read-only data,
  and `StandardProgram.MixedRunIff` says exactly which stores keep the sandbox.
- The disjointness of packages needs accepted assurances: `BlockForgetting.RejectedAssurancesForget` is a run
  without them in which one package sits on two cores, and `BlockSafety.StepApartIff` and
  `BlockSafety.RunApartIff` give the exact condition for one block and for any run.
- A waiting report is meant to wait until it is accumulated or twelve slots old. A block whose tickets are rejected
  leaves the recorded slot behind, and src/accumulate.rs then takes the next block's gap to cover the bucket just
  filled: `BlockWaiting.ReportLost` is an input on which a report is lost after one slot, and
  `BlockWaiting.ChainWaitsIff` says exactly when a report waits (`QueueWaiting.WaitsIff` for the queue alone).
- At length 2^32 - 2 a forget can drop a preimage at once: `ServiceCalls.ReservedLengthDrops`.

## Model

| member | source | states |
|---|---|---|
| `PvmArith.UnsignedDivision32` | src/pvm_exec.rs:291-317 | for every pair of registers, q·b + r = a on the low 32 bits with r < b, or all ones and a for b = 0; both results arrive sign-extended |
| `PvmArith.UnsignedDivision64` | src/pvm_exec.rs:335-359 | the same law on all 64 bits |
| `PvmArith.SignedDivision32` | src/pvm_exec.rs:299-328 | truncating division and remainder: q·b + r = a on signed readings, r smaller than b in absolute value and of the dividend's sign; b = 0 and MIN / -1 give their fixed pairs |
| `PvmArith.SignedDivision64` | src/pvm_exec.rs:342-370 | the same for the 64-bit signed pair |
| `PvmArith.MultiplyHighUnsigned` | src/pvm_exec.rs:334-378 | unsigned high half and low product rebuild the exact 128-bit product |
| `PvmArith.MultiplyHighSigned` | src/pvm_exec.rs:334-379 | signed-by-signed and signed-by-unsigned high halves rebuild the exact signed product |
| `PvmArith.ProductLow32` | src/pvm_exec.rs:290-334 | the 32-bit product is the sign-extended low word of the product |
| `PagedMemory.LowestBadMeaning` | src/pvm.rs:161-181 | the address a check reports is the minimum of the inaccessible ones, wrapping included, and there is none exactly if all are accessible |
| `PagedMemory.GrantedMeaning` | src/pvm.rs:147-181 | an access is granted exactly if every byte is at or above 2^16 and mapped, and writable for a write |
| `PagedMemory.FaultMeaning` | src/pvm.rs:161-181 | a fault names the unmapped page of the lowest bad byte, and everything below it was accessible |
| `PagedMemory.RangeOkMeaning` | src/pvm.rs:118-145 | the capped page-wise range test accepts exactly the ranges whose every byte is accessible |
| `PagedMemory.WriteReadBack` | src/pvm.rs:187-207 | a granted write reads back modulo 2^(8·len) and changes no other byte and no permission |
| `PagedMemory.WriteKeepsReadOnly` | src/pvm.rs:161-207 | a granted write leaves read-only pages byte for byte as they were |
| `PagedMemory.StoreEffect` | src/pvm.rs:94-103 | stored bytes load back and every other byte is unchanged |
| `PagedMemory.Memory.Map` | src/pvm.rs:58-76 | mapping loop over pages: exactly the touched pages, existing pages kept |
| `PagedMemory.Memory.Grow` | src/pvm.rs:79-91 | sbrk: old break returned and heap grown, or zero and nothing changed |
| `PagedMemory.Memory.Write` | src/pvm.rs:200-207 | byte loop of a little-endian write, wrapping at 2^32 |
| `PagedMemory.Memory.Read` | src/pvm.rs:187-198 | byte loop of a little-endian read |
| `PagedMemory.Memory.CheckAccess` | src/pvm.rs:161-181 | the check's loop yields granted, trap or page fault as specified |
| `PvmProgram.SkipLeast` | src/pvm.rs:301-311 | the operand length is the least distance to the next instruction boundary, at most 24 |
| `PvmProgram.ComputeSkip` | src/pvm.rs:301-311 | the scanning loop computes that distance |
| `PvmProgram.BasicBlocksMeaning` | src/pvm.rs:314-338 | block starts are exactly the entry and the successors of terminators that are past the code or valid opcodes |
| `PvmProgram.ComputeBasicBlocks` | src/pvm.rs:320-338 | the scan over the bitmask collects exactly those starts |
| `PvmProgram.BlockStartOfGreatest` | src/pvm.rs:344-346 | the block of a position begins at the greatest start not after it |
| `PvmProgram.ComputeBlockGasCost` | src/pvm.rs:349-364 | the counting loop, its cut-off included, yields the block's cost |
| `PvmProgram.CapUnreached` | src/pvm.rs:349-364 | in code of at most 1,000,000 bytes the count of no block is cut off |
| `PvmExecute.ExecuteControl` | src/pvm_exec.rs:23-414 | only terminators jump or halt, every jump lands on a block start, a falling-through terminator falls onto a block start, and a host call ends no block |
| `PvmExecute.JumpControl` | src/pvm.rs:530-547 | jumps and both outcomes of a branch land on block starts |
| `PvmGas.GasRefinement` | docs/pvm.md:138-158 | unless the code's cap cuts off the count of a block, from a block start the per-instruction machine and the charge-on-entry machine reach the same exit, pc, registers and memory, and the same gas on every halt, panic, page fault and refusal |
| `PvmGas.NoDriftIffUncut` | src/pvm.rs:344-364 | entering blocks at their starts never makes the machines' gas differ if and only if no block has more than 1,000,001 instructions |
| `PvmGas.LongBlockDrifts` | src/pvm.rs:349-364 | a program whose one block is longer than the cap is charged too little already at its start |
| `PvmGas.StepSimulation` | src/pvm.rs:423-469 | step for step the two machines stay related: stepped gas is block gas plus the unspent part of the current block |
| `PvmGas.FirstBlockDrift` | src/pvm.rs:344-469 | from any position of any program the machines leave the first block the same way, their gas differing by exactly the entry cost less the instructions that run; it agrees if and only if these are equal |
| `PvmGas.MidBlockDiverges` | src/pvm.rs:344-364 | a concrete three-instruction program entered at its second instruction ends with 9 gas in one machine and 8 in the other |
| `PvmGas.StepSolvent` | src/pvm.rs:423-469 | a step keeps gas non-negative, costs one unit, and enters blocks only at their starts |
| `PvmGas.ReachableSolvent` | src/pvm.rs:403-469 | after any number of steps from a block start, with no block cut off, gas has fallen by exactly that number and a block is charged only at its start |
| `PvmGas.RunWithinGas` | src/pvm.rs:403-469 | a run stops within as many instructions as it had gas, and never in debt |
| `PvmGas.SemanticsControlled` | src/pvm.rs:314-338 | the real instruction set has the control discipline the gas results need |
| `PvmGas.StepShrinks` | src/pvm.rs:403-469 | a running step costs one unit, and a machine in debt, as a host call can leave it, only finishes the block it has paid for; so every run from every state is finite |
| `PvmVm.Vm.StepOne` | src/pvm.rs:423-469 | the object's step updates pc, gas, registers, memory and block bookkeeping as the step function says |
| `PvmVm.Vm.RunAll` | src/pvm.rs:403-410 | the run loop terminates in the state and exit of the run function |
| `PvmVm.Vm.ExecuteOne` | src/pvm_exec.rs:23-414 | one opcode's in-place effect on registers and memory |
| `PvmVm.Vm.AdvanceHost` | src/pvm.rs:414-420 | a host call is stepped over inside the block already charged |
| `StandardProgram.ProgramOffset` | src/accumulate_exec.rs:78-96 | the search returns the first of 256 offsets whose header lengths consume the container exactly, or none |
| `StandardProgram.LayoutOrdered` | src/accumulate_exec.rs:99-145 | for every header the read-only, heap, stack and argument regions are ordered, so disjoint, page aligned, and below 2^32 |
| `StandardProgram.Initialize` | src/accumulate_exec.rs:99-145 | the image of the first fitting header, or nothing exactly if none of the first 256 offsets fits |
| `StandardProgram.BuildMemory` | src/accumulate_exec.rs:99-145 | the memory object built region by region is the specified image |
| `StandardProgram.InitialMap` | src/accumulate_exec.rs:99-145 | exactly which pages the image maps, and which of them are writable |
| `StandardProgram.InitialContents` | src/accumulate_exec.rs:99-145 | the image holds the read-only data, read-write data and arguments at their places and zero elsewhere |
| `StandardProgram.SbrkSandboxed` | src/pvm.rs:79-91 | sbrk keeps the break within its limit and maps only heap pages |
| `StandardProgram.RunSandboxed` | src/pvm.rs:161-207 | every state of every run of instructions stays in the sandbox |
| `StandardProgram.StandardRunSandbox` | src/accumulate_exec.rs:78-145 | from a standard image, at every moment of a run of instructions: break ≤ limit < stack, heap mapped writable, read-only and argument bytes unchanged and unwritable, nothing outside the four regions accessible |
| `StandardProgram.HostStoreIff` | src/pvm.rs:94-103 | a store by a host call, which checks no permission, keeps the sandbox if and only if it stores what is already there wherever its range meets read-only data or arguments |
| `StandardProgram.MixedRunIff` | src/accumulate_exec.rs:487-500 | whatever instructions run between them, a run with host-call stores stays in the sandbox throughout if and only if every one of the stores is harmless in that sense |
| `StandardProgram.WritableIsHarmless` | src/pvm.rs:118-145 | a write check of the destination range, which these calls do not make, would suffice |
| `StandardProgram.ReadOnlyOverwritten` | src/accumulate_exec.rs:890-901 | an input for which the sandbox fails: a store at 2^16 overwrites the program's read-only data |
| `Codec.ExtraRange` | src/accumulate_exec.rs:157-176 | the encoder picks the least length whose range holds the number |
| `Codec.EncodeCompact` | src/accumulate_exec.rs:157-176 | the encoding loop yields the specified bytes for every 64-bit number |
| `Codec.ReadCompactAt` | src/pvm.rs:280-298 | the interpreter's reader with its moving offset, short inputs included |
| `Codec.ReadersAgree` | examples/golden_diff.rs:56-77 | the two independently written readers agree on every input |
| `Codec.CompactRoundTrip` | src/accumulate_exec.rs:157-176 | wherever an encoding of a 64-bit number stands, both readers return the number and consume exactly the encoding |
| `Codec.ComputeSplit` | examples/golden_diff.rs:157-181 | the operand-splitting loop with its moving position |
| `Codec.OperandListRoundTrip` | src/accumulate_exec.rs:203-223 | splitting a counted concatenation of encoded operands recovers exactly the encodings, in order, with nothing left |
| `Codec.AccArgs` | src/accumulate_exec.rs:148-154 | the invocation arguments are at most 15 bytes, so they fit the argument region |
| `ServiceIds.CheckId` | src/accumulate_exec.rs:348-353 | the search returns the first free id in cyclic order in [2^16, 2^32 - 2^8) and terminates when one is free |
| `ServiceIds.PublicRange` | src/accumulate_exec.rs:331-333 | the ids of the sequence are exactly those in [2^16, 2^32 - 2^8) |
| `ServiceIds.FewLiveLeavesFree` | src/accumulate_exec.rs:331-353 | fewer live accounts than public ids leave one free |
| `ServiceIds.NextDiffersIff` | src/accumulate_exec.rs:843-858 | the id found 42 steps on is always free, and is not the one being handed out if and only if one of the ids between them is free |
| `ServiceIds.FewLiveLeavesRoom` | src/accumulate_exec.rs:843-858 | with fewer than ID_MOD - 42 accounts one of them is |
| `ServiceRun.HostKeepsId` | src/accumulate_exec.rs:449-888 | every host call keeps the prepared id public, and keeps it fresh if and only if it is no `new` without room |
| `ServiceRun.IdsAlwaysFresh` | src/accumulate_exec.rs:389-391 | at every point of a run of any length the prepared id is not a live account, if and only if every `new` of the run had room |
| `ServiceRun.InvokeKeepsId` | src/accumulate_exec.rs:389-446 | then it is fresh after the invocation as well, rollbacks included |
| `ServiceRun.FewAccountsRoomy` | src/accumulate_exec.rs:843-858 | fewer than ID_MOD - 42 accounts give any call room |
| `ServiceState.StatusRoundTrip` | src/accumulate_exec.rs:182-201 | an encoded request status decodes to the slots it was written with |
| `ServiceRun.Service.HostWrite` | src/accumulate_exec.rs:506-545 | write: storage entry and cached footprint updated, old length returned |
| `ServiceRun.Service.HostEject` | src/accumulate_exec.rs:569-587 | eject: account and everything stored under it removed, balance credited |
| `ServiceRun.Service.HostTransfer` | src/accumulate_exec.rs:588-621 | transfer: immediate or deferred, with its three refusals |
| `ServiceRun.Service.HostSolicit` | src/accumulate_exec.rs:666-693 | solicit: request opened or reopened |
| `ServiceRun.Service.HostForget` | src/accumulate_exec.rs:694-732 | forget: request dropped or moved one stage, by its status and age |
| `ServiceRun.Service.HostNew` | src/accumulate_exec.rs:831-884 | new: account, code request, next id and payment |
| `ServiceRun.Service.Dispatch` | src/accumulate_exec.rs:449-888 | one host call's whole effect on state, transfers and output |
| `ServiceRun.Service.RunToEnd` | src/accumulate_exec.rs:372-446 | the invocation loop with snapshots: what a halt, a trap, exhaustion and unloadable code leave behind |
| `ServiceCalls.WriteThenDelete` | src/accumulate_exec.rs:506-545 | deleting a storage entry just created restores dictionary, footprint and everything else |
| `ServiceCalls.WriteThenRestore` | src/accumulate_exec.rs:506-545 | overwriting and writing the old value back restores everything, and both calls report the replaced length |
| `ServiceCalls.SolicitThenForget` | src/accumulate_exec.rs:666-732 | forgetting a request just opened restores everything |
| `ServiceCalls.NewThenEject` | src/accumulate_exec.rs:569-587 | ejecting an account just created returns its balance and leaves nothing of it |
| `ServiceCalls.SendMovesAmount` | src/accumulate_exec.rs:588-621 | for every account, its exact balance after a transfer; refusals and the deferred record exactly characterized |
| `ServiceCalls.EjectMovesBalance` | src/accumulate_exec.rs:569-587 | exactly when an ejection is refused, and for every account but the ejected one its balance afterwards |
| `ServiceCalls.LedgerBalances` | src/accumulate_exec.rs:569-621 | over any transfers and ejections by any services, an account that is not ejected has its initial balance plus what it received and gained less what it sent |
| `ServiceCalls.ForgetAvailable` | src/accumulate_exec.rs:722-725 | an available request becomes unavailable since the block's slot |
| `ServiceCalls.ForgetUnavailable` | src/accumulate_exec.rs:717-721 | an unavailable request is dropped with its preimage exactly once it is older than 32 slots |
| `ServiceCalls.StepFollows` | src/accumulate_exec.rs:666-732 | on the stored bytes, solicit and forget follow the life of a request: opened, forgotten, reopened, forgotten again, and dropped once expired |
| `ServiceCalls.RunFollows` | src/accumulate_exec.rs:666-732 | so they do over any run of calls on any requests, whatever happens to the other requests in between |
| `ServiceCalls.StatusChronological` | src/accumulate_exec.rs:666-732 | in blocks of rising slots a status never holds more than three slots, and they are in order and not in the future, however often the request is reopened |
| `ServiceCalls.PreimageKept` | src/accumulate_exec.rs:666-732 | over any solicits and forgets of a service, of any requests in any order but at length 2^32 - 2, a preimage disappears only by two forgets of one request for it, the first perhaps before the run, more than 32 slots apart, with no solicit of that request between them |
| `ServiceCalls.ReservedLengthDrops` | src/accumulate_exec.rs:694-716 | why that length is excluded: there the request is the preimage blob, and forget drops one that begins with 0 at once |
| `ServiceCalls.ForgetsDropIff` | src/accumulate_exec.rs:694-732 | forgets of an available request drop it with its preimage if and only if one of them comes more than 32 slots after the first, and otherwise leave it unavailable since the first |
| `ServiceCalls.RollsBackToCheckpoint` | src/accumulate_exec.rs:392-442 | a trap or exhaustion leaves exactly the state, transfers and output at the last checkpoint |
| `ServiceCalls.RollsBackToStart` | src/accumulate_exec.rs:392-442 | without a checkpoint it leaves what there was at the start |
| `ServiceSupply.SendKeepsWorth` | src/accumulate_exec.rs:588-621 | a transfer conserves balances plus outstanding transfers, whichever branch it takes |
| `ServiceSupply.EjectKeepsSupply` | src/accumulate_exec.rs:569-587 | ejecting conserves the supply |
| `ServiceSupply.NewSupply` | src/accumulate_exec.rs:831-884 | the exact change `new` makes to the supply, for any caller and any id |
| `ServiceSupply.NewConservesIff` | src/accumulate_exec.rs:859-884 | exactly when `new` conserves the supply: on a free id if the caller can pay, on another's id if what is overwritten and paid is what is given, on the caller's own id if it had nothing |
| `ServiceSupply.HostKeepsWorthIff` | src/accumulate_exec.rs:449-888 | any host call keeps balances plus outstanding transfers if and only if it is no `new` that fails that condition |
| `ServiceSupply.RunWorthIff` | src/accumulate_exec.rs:391-446 | at every point of a run they are what they were at its start, if and only if every `new` of the run meets the condition |
| `ServiceSupply.InvokeKeepsWorth` | src/accumulate_exec.rs:391-446 | when every `new` conserves, balances plus deferred transfers after an invocation equal the balances before, on every exit including rollback |
| `ServiceSupply.InvocationNeverOverflows` | src/accumulate_exec.rs:569-621 | from a supply below 2^64 every balance fits 64 bits at every point of such an invocation |
| `ServiceSupply.GroupMeaning` | src/accumulate.rs:299-304 | grouping by destination keeps every transfer, in order |
| `ServiceSupply.RoundsAccount` | src/accumulate.rs:296-335 | across all deferred rounds, and before and after every delivery, supply plus outstanding, undelivered and burnt transfers stay constant; with less than 2^64 of it no sum of transfers, credit or balance overflows |
| `ServiceSupply.LeftOverOnlyAtLimit` | src/accumulate.rs:297-300 | transfers are left over only when all sixteen rounds have run |
| `ServiceSupply.BlockAccounts` | src/accumulate.rs:253-335 | over a block, and after every service and delivery in it, the supply has shrunk by exactly the outstanding, burnt and left-over transfers; with a supply below 2^64 no invocation, sum or credit of the block overflows |
| `ServiceSupply.BlockNeverOverflows` | src/accumulate.rs:253-335 | a supply below 2^64 keeps every balance of the outcome below it |
| `ServiceSupply.DeliverAccounts` | src/accumulate.rs:305-327 | one delivery turns exactly its transfers into supply, and cannot overflow while both together are below 2^64 |
| `ServiceSupply.ComputeBlock` | src/accumulate.rs:253-335 | the loops over services and rounds, threading the state, compute the specified outcome |
| `ServiceFootprint.WriteKeepsFootprint` | src/accumulate_exec.rs:506-545 | write keeps every cached footprint equal to the totals recomputed from the dictionary |
| `ServiceFootprint.EjectKeepsFootprint` | src/accumulate_exec.rs:569-587 | eject keeps every cache exact |
| `ServiceFootprint.SendKeepsFootprint` | src/accumulate_exec.rs:588-621 | transfers keep every cache exact |
| `ServiceFootprint.SolicitExactIff` | src/accumulate_exec.rs:666-693 | solicit keeps every cache exact if and only if its length is below 2^32 - 2, or the entry exists and is refused, or it rewrites a preimage blob or a storage value of the same 13 bytes |
| `ServiceFootprint.ForgetExactIff` | src/accumulate_exec.rs:694-732 | forget keeps every cache exact if and only if its length is below 2^32 - 2, or it is refused, or it rewrites, and does not drop, a preimage blob or a storage value of the same 9 bytes |
| `ServiceFootprint.ForgetUnderflows` | src/accumulate_exec.rs:705-715 | the input for which it fails worst: a value `[0]` under a 32-byte storage key is dropped by forget at length 2^32 - 1, which credits back more than the entry was charged |
| `ServiceFootprint.BareUnderflows` | src/accumulate_exec.rs:705-715 | on an account that holds nothing these two calls take its item count to -1, where the code's subtraction underflows |
| `ServiceFootprint.NewCaches` | src/accumulate_exec.rs:859-884 | `new` on any id with any code length is exact if and only if the id's entries, the new request among them, add up to two items and 81 + length octets |
| `ServiceFootprint.NewExactIff` | src/accumulate_exec.rs:859-884 | on a free id `new` keeps the caches exact if and only if the code length is below 2^32 - 2 |
| `ServiceFootprint.NewExactIffHoldsNothingElse` | src/accumulate_exec.rs:859-884 | on any id `new` is exact if and only if the id's account held nothing else |
| `ServiceFootprint.HostExactIff` | src/accumulate_exec.rs:449-888 | any host call keeps every cache exact if and only if it meets the condition of its kind |
| `ServiceFootprint.RunExactIff` | src/accumulate_exec.rs:391-446 | the caches are exact at every point of a run if and only if every call of it meets its condition |
| `ServiceFootprint.InvokeKeepsFootprint` | src/accumulate_exec.rs:372-446 | after such an invocation, rollbacks included, every cache is exact |
| `ServiceFootprint.RunNeverUnderflows` | src/accumulate_exec.rs:522-715 | at every point of such a run every cached count is at least zero, so no subtraction of the code underflows |
| `Queue.EditMeaning` | src/accumulate.rs:137-146 | exactly the entries not accumulated survive, each with its unresolved dependencies |
| `Queue.PriorityTopological` | src/accumulate.rs:149-163 | every dependency of an output report is the hash of a strictly earlier output |
| `Queue.PriorityClosed` | src/accumulate.rs:149-163 | the output hashes are closed: a queued report whose dependencies are all output is output |
| `Queue.PriorityLeast` | src/accumulate.rs:149-163 | the output is within every set closed in that way, so it is the least one |
| `Queue.PriorityOrderFree` | src/accumulate.rs:149-163 | the set of output hashes does not depend on the order of the queue |
| `Queue.CyclesStay` | src/accumulate.rs:149-163 | reports on dependency cycles never leave the queue |
| `Queue.PriorityDistinct` | src/accumulate.rs:149-163 | from distinct packages the output names each at most once |
| `QueueRings.ComputeAdvance` | src/accumulate.rs:190-367 | the block's queue step with its loops over buckets, gas and ring slots computes the specified rings and accumulated reports |
| `QueueRings.GasCutKeeps` | src/accumulate.rs:218-228 | the gas cut keeps the first k reports exactly if no prefix up to them exceeds the budget |
| `QueueRings.ImmediateNeverCut` | src/accumulate.rs:214-228 | at most two reports of at most 10,000,000 gas are never cut, so immediate reports accumulate at once |
| `QueueRings.ComputeReady` | src/accumulate.rs:355-367 | the ready-ring loop refills, expires or edits each bucket by its age |
| `QueueWaiting.EntryKeptIff` | src/accumulate.rs:354-367 | an entry under twelve slots old that is not accumulated stays in its bucket, edited, if and only if the block's recorded predecessor is not before the slot at which it was queued |
| `QueueWaiting.StaysIff` | src/accumulate.rs:354-367 | over any run under twelve slots a waiting report stays if and only if its package is not accumulated and no imported block records a predecessor before its slot |
| `QueueWaiting.WaitsIff` | src/accumulate.rs:190-367 | from the block that makes a report with dependencies available, it waits at every point of any run under twelve slots later exactly while its package is not accumulated and no imported block records a predecessor before that slot |
| `BlockWaiting.RunIsQueueRun` | src/block_import.rs:253-446 | a run of blocks is a run of the queue, each block with the slot recorded before it, so the queue's run results hold of it |
| `BlockWaiting.ChainWaitsIff` | src/block_import.rs:253-446 | over any run of blocks under twelve slots, the report waits exactly while its package is not accumulated and either the tickets of the block that made it available were accepted or no block has been imported since |
| `BlockWaiting.LaggingWipes` | src/accumulate.rs:354-367 | when the recorded slot lags behind the last block, the next block empties that block's bucket, even one slot later |
| `BlockWaiting.ReportLost` | src/block_import.rs:253-446 | a concrete input: a report is queued by a block whose tickets are rejected, and after the next block it is on no core, in no bucket and not accumulated |
| `QueueRings.AccumulatedAfter` | src/accumulate.rs:343-352 | the accumulated ring forgets its oldest bucket and remembers exactly this block's packages |
| `QueueRings.SortedMeaning` | src/accumulate.rs:349-350 | the newest bucket is an ordered permutation of the accumulated packages |
| `QueueRings.RingDiscipline` | src/accumulate.rs:354-367 | over any run with any slot gaps, every entry of bucket i was queued by an imported block at a slot congruent to i mod 12 and under 12 slots ago, given that this explains what waits at the start |
| `QueueRings.RunOutstanding` | src/accumulate.rs:190-228 | over any run no waiting report and no outstanding dependency is in the accumulated ring |
| `QueueRings.DependenciesFirst` | src/accumulate.rs:190-228 | over any run a report is accumulated only after all its dependencies, in the log or known at the start, given that what waits at the start lists its unknown ones |
| `QueueRings.NothingPlaced` | src/accumulate.rs:190-228 | both conditions on the start hold when nothing waits |
| `BlockImport.RunAssurances` | src/assurances.rs:67-131 | the tally and clearing loops: first fault in order, or available reports and remaining assignments |
| `BlockImport.AvailableMeansSuperMajority` | src/assurances.rs:109-124 | in accepted assurances a report is available exactly if more than two thirds of distinct validators vouch for its core |
| `BlockImport.CheckGuarantees` | src/reports.rs:187-358 | the ordering, results, free-core, gas and duplicate checks accept exactly the specified guarantees |
| `BlockImport.RunGuarantees` | src/reports.rs:360-376 | accepted reports are written to their cores; rejection changes nothing |
| `BlockImport.Import` | src/block_import.rs:253-446 | the successive field updates of a block step, in the order of the subsystems |
| `BlockSafety.AdvanceApart` | src/accumulate.rs:190-367 | the queue step keeps waiting and accumulated packages duplicate-free and disjoint |
| `BlockSafety.CandidatesFresh` | src/accumulate.rs:206-228 | a block's candidates are distinct and none is remembered as accumulated |
| `BlockSafety.AvailableLands` | src/accumulate.rs:190-367 | whatever has just become available is waiting or accumulated after the block |
| `BlockSafety.StepApartIff` | src/block_import.rs:253-446 | a block keeps packages on cores, waiting and accumulated pairwise disjoint if and only if no accepted guarantee repeats an assigned or just available package |
| `BlockSafety.RunApartIff` | src/block_import.rs:253-446 | over any run, whatever its assurances, they are disjoint at every point if and only if no imported block has such a guarantee |
| `BlockSafety.StepRemembered` | src/assurances.rs:109-124 | accepted assurances clear stale assignments, so every assignment stays within the 8-block history |
| `BlockSafety.RememberedGivesNew` | src/reports.rs:346-358 | then the duplicate check lets no assigned package in again |
| `BlockSafety.RunSafe` | src/block_import.rs:253-446 | over any run with rising slots and accepted assurances no package is ever in two places or twice in one |
| `BlockSafety.NeverTwice` | src/block_import.rs:520-531 | in such a run no package is accumulated twice within the twelve blocks for which it is remembered |
| `BlockForgetting.RejectedAssurancesForget` | src/block_import.rs:166-204 | the premise is needed: behind a full history, after eight or more blocks with rejected assurances, a package still assigned to core 0 is assigned to core 1 too, each time by a guarantee that passes every check |
| `BlockForgetting.BlankSafe` | src/block_import.rs:253-446 | the start of that run is safe in the sense of the run result |
| `BlockForgetting.ForgetfulSlots` | src/block_import.rs:253-446 | the slots of that run rise one by one |
| `BlockForgetting.BothIsNotApart` | src/block_import.rs:253-446 | a package on both cores breaks the disjointness that the run result promises |
| `Safrole.ValidateTickets` | src/safrole.rs:218-251 | the validation loop and its three later checks return the ticket bodies or the first error in the code's order |
| `Safrole.SortedMeaning` | src/safrole.rs:113-115 | sorting tickets with distinct ids orders them strictly and loses none |
| `Safrole.AdmitKeepsLowest` | src/safrole.rs:109-119 | although each block truncates, the accumulator holds the twelve lowest of all ids ever admitted |
| `Safrole.LowestExact` | src/safrole.rs:109-119 | that description fixes the accumulator: min(12, admitted) ids, none with a smaller one left out |
| `Safrole.ZSequence` | src/safrole.rs:255-270 | the two-ended loop takes even positions from the front and odd positions from the back |
| `Safrole.OutsideInPermutes` | src/safrole.rs:255-270 | the reordering is a permutation |
| `Safrole.ComputeFallback` | src/safrole.rs:275-285 | the fallback key loop over the epoch's slots |
| `Safrole.Transition` | src/safrole.rs:85-212 | the transition with its local updates: outcome and state for every input, errors leaving the state as it was |
| `SafroleRun.ContestRun` | src/safrole.rs:103-135 | at every point of an epoch the accumulator is ascending and holds the lowest twelve ids admitted so far, and a mark has been emitted exactly if the tail was reached with a full accumulator |
| `SafroleRun.SealsIffMarked` | src/safrole.rs:157-181 | the following epoch seals with tickets if and only if it follows immediately and a mark was emitted; there is at most one, and the sealing sequence is that mark |
| `SafroleRun.SealsWithLowest` | src/safrole.rs:157-181 | sealing tickets are the twelve lowest ids of the whole contest, reordered |
| `SafroleRun.EpochTicketsProved` | src/safrole.rs:141-181 | every ticket of an epoch was proved against the ring of its next validators and one entropy |
| `Trie.LeafNode` | src/trie.rs:38-49 | the leaf's 64-byte array is filled as specified for short and long values |
| `Trie.BranchNode` | src/trie.rs:52-58 | the branch's array is the left hash without its top bit, then the right hash |
| `Trie.Partition` | src/trie.rs:66-73 | the push loop splits the entries by one bit, in order |
| `Trie.Merklize` | src/trie.rs:61-79 | the recursion computes the specified root, or none where it would index past the key |
| `Trie.ByteBitMask` | src/trie.rs:21-23 | the bit test by shifting equals the test under the mask `1 << (7 - i)` |
| `Trie.RootDefinedIff` | src/trie.rs:61-84 | a root exists exactly if the keys are distinct |
| `Trie.StateBitsSuffice` | src/trie.rs:21-84 | distinct 31-byte keys are told apart within 248 bits, so no later bit is looked at |
| `Trie.RootIgnoresOrder` | src/trie.rs:81-84 | every ordering of the entries has the same root, or none |
| `Trie.MerkleIsRoot` | src/trie.rs:61-79 | the root of distinct entries is a function of their dictionary alone |
| `Trie.RootsEqualIff` | src/trie.rs:38-84 | for any 32-byte keys, with hashing collision-free on what occurs, roots are equal exactly if the trees are equal up to the last key byte of each leaf |
| `Trie.RootBinds` | src/trie.rs:38-84 | for state keys, with hashing collision-free on what occurs, even without the top bit of left hashes, roots are equal exactly if dictionaries are |
| `Trie.StateKeyFaithful` | src/trie.rs:30-35 | 31-byte state keys stay distinct and end in the zero byte that binding needs |
| `Trie.LastByteUnseen` | src/trie.rs:38-41 | for other keys binding fails: a lone leaf never shows the key's last byte |
| `Mmr.MountainRange.Append` | src/crypto.rs:50-73 | the carry loop changes the peak vector in place as binary addition of one |
| `Mmr.AppendCommits` | src/crypto.rs:50-73 | appending keeps every peak committed to its own consecutive leaves |
| `Mmr.PeakIffBit` | src/crypto.rs:45-73 | after any leaf sequence peak i is present exactly if bit i of the leaf count is 1 |
| `Mmr.PeakIsRoot` | src/crypto.rs:45-73 | peak i is the root of the perfect tree over its own 2^i consecutive leaves |
| `Mmr.BlocksJoin` | src/crypto.rs:45-73 | the blocks of the peaks, from high to low, concatenate to the whole sequence |
| `Mmr.SuperPeakBinds` | src/crypto.rs:80-97 | with hashing collision-free on what occurs, super-peaks of equally long sequences are equal exactly if the sequences are |
| `Guarantors.FisherYates` | src/reports.rs:139-150 | the shuffle's loop with its in-place replacement computes the specified sequence |
| `Guarantors.ShufflePermutes` | src/reports.rs:139-150 | whatever numbers are drawn the result is a permutation |
| `Guarantors.ThreePerCore` | src/reports.rs:130-137 | for every seed and slot each core has exactly three validators when the count is a multiple of three |
| `Guarantors.ComputeCores` | src/reports.rs:130-137 | the assignment computed from the shuffle's loop and the rotation |
| `Guarantors.CheckedAgainstOwnSlot` | src/reports.rs:409-436 | a guarantee is checked against the assignment in force at its own slot, across rotation and epoch boundaries |
| `Guarantors.CheckCredentials` | src/reports.rs:208-254 | the slot window, ordering, count and per-credential checks return the first error in the code's order, and none if and only if the guarantee was made in this or the previous rotation and carries, in strictly rising order, two or more credentials of validators whom the assignment in force then put on its core, with signatures that verify under keys that are not banned |
| `Guarantors.TwoOrThreeCredentials` | src/reports.rs:217-254 | an accepted guarantee carries two or three credentials, all of validators assigned to its core |
| `PagedMemory.RefusedMeaning` | src/pvm.rs:161-181 | a refused access faults, at its page, if and only if its lowest inaccessible byte is at or above 2^16 on an unmapped page, and traps otherwise |
| `StandardContainer.ContainerRoundTrip` | src/accumulate_exec.rs:78-119 | wherever a packed program begins, if nothing follows it, its header fits there and it is cut into the data and code that were packed |
| `StandardContainer.PackedProgram` | src/accumulate_exec.rs:99-145 | loading it yields that code and the image of that data |
| `StandardContainer.ImagePages` | src/accumulate_exec.rs:121-134 | the pages of the image and the heap limits by number: read-only data from page 16, heap a zone after it, stack below page 0xfefe0, arguments from page 0xfeff0; heap and stack alone are writable |
| `StandardContainer.ImageLoads` | src/accumulate_exec.rs:121-140 | loading as many bytes as r8 says at the address in r7 returns the arguments, and the data loads back from its fixed addresses |
| `StandardContainer.RegistersAre` | src/accumulate_exec.rs:136-140 | return address, stack top, argument address and length are in r0, r1, r7 and r8, and every other register is zero |
| `OperandDecode.OperandReads` | src/accumulate_exec.rs:203-223 | wherever it stands, an encoded operand decodes to every field it was made from and is consumed exactly |
| `OperandDecode.ArgsRead` | src/accumulate_exec.rs:148-154 | the invocation arguments decode to slot, service and count, in this order and nothing else |
| `PvmLaws.OutcomeLaw` | src/pvm.rs:424-470 | what a machine step makes of each outcome of an instruction: the next position, the exit and whether a new block begins |
| `PvmLaws.BranchLaw` | src/pvm.rs:538-547 | through a machine step, with every comparison of the opcodes 81-90 and 170-175 written out: where target and fall-through both start blocks the branch is taken if and only if the comparison holds, and otherwise the machine panics |
| `PvmLaws.JumpLaw` | src/pvm.rs:530-536 | through a machine step, a jump or fall-through goes to its target if that starts a block, and panics if not |
| `PvmLaws.DynamicJumpLaw` | src/pvm.rs:549-565 | through a machine step, a dynamic jump halts at one address only and otherwise reaches exactly the block start that the table has for an even address within it, or panics |
| `PvmLaws.LoadImmediateLaw` | src/pvm_exec.rs:74-105 | constants of eight bytes, and sign-extended ones, arrive in the register that the low nibble names |
| `PvmLaws.SextKeepsSign` | src/pvm.rs:505-515 | sign extension keeps the two's-complement reading at every width |
| `PvmLaws.ThreeRegLaw` | src/pvm_exec.rs:284-406 | which operand nibbles name the sources and which byte the destination, and that nothing else changes |
| `PvmLaws.LoadLaw` | src/pvm_exec.rs:97-202 | each load reads the stated number of bytes at its address, little-endian, sign-extended for the odd opcodes, into its register, or is refused as the access check says, changing nothing |
| `PvmLaws.StoreLaw` | src/pvm_exec.rs:80-195 | each store leaves its value modulo its width at its address and every other byte, page and register as they were, or is refused, changing nothing |
| `PvmLaws.SbrkLaw` | src/pvm_exec.rs:159-167 | sbrk returns the old break and maps exactly the pages up to the new one, or returns zero and changes nothing else |
| `PvmLaws.StraightLineLaw` | src/pvm_exec.rs:52-410 | an instruction that is no terminator does the same wherever blocks start and whatever the jump table holds, and a byte that is no opcode panics |
| `PvmLaws.TerminatorLaw` | src/pvm_exec.rs:52-410 | where no block starts a terminator can only panic or halt |
| `QueueLaws.CandidatesRelease` | src/accumulate.rs:196-234 | a block's candidates hold every new report that needs nothing and whatever they release, waiting in any bucket or new |
| `QueueLaws.CandidatesLeast` | src/accumulate.rs:149-234 | they are within every set of packages closed in that way, so they are the least one |
| `QueueLaws.OlderFirst` | src/accumulate.rs:208-234 | of two waiting reports that need only reports without dependencies, the one that has waited longer is a candidate first |
| `QueueLaws.WaitingFirst` | src/accumulate.rs:208-234 | one that waits is a candidate before one that has just become available |
| `QueueLaws.TakenIff` | src/accumulate.rs:224-240 | the first k candidates are accumulated if and only if no prefix of them has more than 20,000,000 gas |
| `QueueLaws.GasLaw` | src/accumulate.rs:224-240 | a report's gas is the sum over its results, each read as a signed number |
| `BlockCores.CoresAfterAssurances` | src/assurances.rs:67-131 | exactly what assurances leave: unless proper they change nothing; otherwise a core is empty afterwards if and only if it was, or more than two thirds vouch for it, or its report is five slots old, and the reports of the second kind are the available ones |
| `BlockCores.AssurancesRejectedWith` | src/assurances.rs:73-107 | which error rejected assurances are given: of the first one at fault, the first check that it fails |
| `BlockCores.GuaranteesAcceptedIff` | src/reports.rs:187-358 | guarantees are accepted if and only if they are for distinct free cores in order, with results of at most 10,000,000 gas, of packages that are not accumulated, waiting, in the history, or repeated |
| `BlockCores.CoreAfterBlock` | src/block_import.rs:253-446 | exactly what a block leaves on a core: the report it guarantees there, or what it does not release |
| `BlockCores.AvailableAfterBlock` | src/block_import.rs:253-446 | exactly which reports a block makes available, and in what order |
| `BlockCores.HistoryAfter` | src/block_import.rs:186-198 | the history gains the packages the block reports, in ascending order, and forgets its oldest block when it held eight |
| `BlockCores.AssignmentStaysIff` | src/block_import.rs:253-446 | over any run an assignment stays on its core, with its slot, if and only if no imported block judges its report or has proper assurances that vouch for it or find it five slots old |
| `ServiceLaws.WriteLaw` | src/accumulate_exec.rs:506-545 | write by registers: the bytes at r7 of length r8 name the entry and those at r9 of length r10 become it, or delete it if there are none; no other entry and no other account changes, and nothing does if a range is unreadable |
| `ServiceLaws.StorageHoldsLast` | src/accumulate_exec.rs:506-545 | over any writes, every entry holds what was last written to it, or what it held before |
| `ServiceLaws.TransferLaw` | src/accumulate_exec.rs:588-621 | transfer by registers: destination, amount, gas and memo, the balance of every account afterwards, and the record of a deferred one |
| `ServiceLaws.EjectLaw` | src/accumulate_exec.rs:569-587 | eject by registers: the account and its entries go, the balance comes, and no other account or entry changes |
| `ServiceLaws.RequestLaw` | src/accumulate_exec.rs:666-732 | solicit and forget by registers: the hash at r7 and the length in r8 make the request |
| `ServiceLaws.NewLaw` | src/accumulate_exec.rs:831-884 | new by registers: every field of the account created, its code request, and what the caller pays |
| `ServiceLaws.NextIdLaw` | src/accumulate_exec.rs:831-884 | the id prepared for the next call is the first free one from 42 further on |
| `ServiceLaws.OtherCallsLaw` | src/accumulate_exec.rs:733-765 | bless changes the manager and registrar if and only if the manager calls it with readable tables, and every other call changes nothing |
| `ServiceLaws.YieldLaw` | src/accumulate_exec.rs:560-568 | yield makes the 32 bytes at r7 the output, and no other call changes it |
| `ServiceLaws.TransferReply` | src/accumulate_exec.rs:588-621 | transfer replies 0 exactly if it takes effect, and otherwise changes nothing and replies with the one reason that holds |
| `ServiceLaws.RequestReply` | src/accumulate_exec.rs:666-732 | solicit and forget reply 0 exactly if they change the dictionary, and otherwise refuse and change nothing |
| `ServiceLaws.NewReply` | src/accumulate_exec.rs:831-884 | new replies with the id of the account it creates |
| `ServiceLaws.HaltLeavesAll` | src/accumulate_exec.rs:420-445 | a halting invocation leaves the state and transfers of its last call; its output is the 32 bytes at r7 if and only if r8 is 32 and they are readable, and otherwise the last yield |
| `ServiceLaws.BadEndLeavesMark` | src/accumulate_exec.rs:432-442 | any other end leaves state, transfers and output as they were at the last checkpoint, or at the start |
| `ServiceLaws.StartLaw` | src/accumulate_exec.rs:382-394 | an invocation starts from the state it is given with the first free id from the seed on, and leaves it alone if its code does not load |
| `ServiceRounds.ServicesInOrder` | src/accumulate.rs:254-291 | each service runs in the state that those before it left, and its transfers come after theirs |
| `ServiceRounds.RoundInTurn` | src/accumulate.rs:300-333 | a round serves every destination exactly once, in ascending order, credited with all it was sent |
| `ServiceRounds.NextRoundInTurn` | src/accumulate.rs:296-334 | the next round delivers exactly what the last one emitted, up to the sixteenth |
| `SafroleLaws.AcceptedIff` | src/safrole.rs:85-251 | a block's tickets are accepted if and only if the slot rises, the tail brings none, every attempt is below three and proved against the ring and entropy of its epoch, and the ids rise and are new |
| `SafroleLaws.RejectedWith` | src/safrole.rs:85-251 | a rejected block changes nothing, and which error it is given |
| `SafroleLaws.AccumulatorLaw` | src/safrole.rs:110-122 | the accumulator holds the tickets that stood there or come with the block, each with its own attempt, all of them or the first twelve |
| `SafroleLaws.WithinLaw` | src/safrole.rs:104-137 | within an epoch only the clock, the newest entropy and the accumulator change, and when the winning tickets are marked |
| `SafroleLaws.TurnLaw` | src/safrole.rs:139-212 | at an epoch turn the active validators become previous, the next active, and the staged ones without offenders next; entropies move up, the ring commits to the next set, and tickets or keys of the new active set seal |
| `SafroleLaws.EpochSets` | src/safrole.rs:139-172 | so at every later point of the epoch, whose fallback keys are keys of its own active set |
| `SafroleLaws.RingBecomesActive` | src/safrole.rs:139-181 | the tickets of an epoch were proved against the ring of the set that becomes active at the next turn |
| `MerkleProofs.LeafReadsBack` | src/trie.rs:38-49 | a leaf decodes, by its head byte, to 31 bytes of its key and its value, or the digest of a value past 32 bytes; the rest is zero |
| `MerkleProofs.BranchReadsBack` | src/trie.rs:52-58 | a branch decodes to its left hash without the top bit and its right hash |
| `MerkleProofs.EntryProved` | src/trie.rs:61-84 | every entry under a root has siblings that lead from its leaf to that root along the bits of its key |
| `MerkleProofs.LeafProved` | src/crypto.rs:45-73 | every leaf of a range has siblings that lead to the peak it is under along the bits of its index |
| `MerkleProofs.SuperPeakGrows` | src/crypto.rs:80-97 | one more, higher, peak is hashed behind the tag and the super-peak of the lower ones; an absent one changes nothing |
| `MerkleProofs.FoldReadsBack` | src/crypto.rs:85-93 | what is hashed for it splits into tag, lower part and higher peak |
| `Guarantors.EndorsedIff` | src/reports.rs:208-254 | the specification of the credential check accepts exactly the endorsed guarantees |
| `Guarantors.RejectedWith` | src/reports.rs:208-254 | which error a rejected guarantee is given: of the first credential that does not endorse it, the first condition that fails |
| `Guarantors.DrawLaw` | src/reports.rs:153-163 | a draw is four bytes, least significant first, of the digest of the seed and the digest's number |
| `Guarantors.ShuffleUndone` | src/reports.rs:139-150 | the numbers drawn undo the shuffle, so they fix where every element goes |
| `Guarantors.RotationLaw` | src/reports.rs:130-137 | an assignment starts an epoch as shuffled, stands for four slots, and then sends every validator to the next core, the last one's to core 0 |
| `Guarantors.StartLaw` | src/reports.rs:130-137 | undoing the shuffle of an epoch's first assignment puts validators 0, 1 and 2 on core 0, the next three on core 1 |

## Left out

- The guest program inside an invocation: `ServiceRun` replaces it by an arbitrary script of host calls with arbitrary registers and memory, of which what a real program does is one. Running the interpreter and the host calls in one loop is not modelled.
- PvmExecute.ExecuteControl: register results other than constants, loads, division, remainder and products come from an arbitrary function parameter, so nothing is said about shifts, logic, comparisons and the other arms.
- PvmGas.GasRefinement: for programs no block of which is cut off, and for runs without host calls, which subtract gas outside the block gate.
- PvmVm.Vm.ExecuteOne: as `PvmExecute.ExecuteControl`, with those register results given by a parameter.
- ServiceRun.Service.HostTransfer: does not model the gas reserved by a deferred transfer, since scripts may end at any point.
- ServiceRun.Service.Dispatch: a reply is the result of its host call (`ServiceLaws.TransferReply` and the like) and is not written to a register, since the registers of later calls are arbitrary; the gas of host calls and the wider effects of bless, assign and designate are not modelled.
- ServiceRun.Service.RunToEnd: does not model gas used; like `ServiceRun.Service.HostNew` it needs a free public id whenever one is searched for, without which the search in the code does not return.
- Host calls that only read or copy into guest memory (gas, fetch, read, lookup, info, query): no effect on the service state; their stores are `StandardProgram.HostStore` moves with arbitrary bytes.
- Addresses of range checks and copies are not wrapped at 2^64; lengths come from registers and stay below it.
- ServiceFootprint.InvokeKeepsFootprint: cached counts are integers; growth past 2^32 items or 2^64 octets is not modelled.
- ServiceState.MinBalance: does not model the 64-bit overflow of `81 + l` and of the sum it enters, for code lengths close to 2^64.
- BlockImport.GasTotal: does not model the 64-bit overflow of `total_gas`, for results that claim close to 2^64 gas together.
- ServiceState.StatusRoundTrip: for stored statuses shorter than their count, which only solicit and forget at length 2^32 - 1 or 2^32 - 2 can meet, the code would abort; the decoder reads missing bytes as zero.
- Codec.EncodeCompact: for numbers from 2^56 up the code shifts by 64 bits, which a build with overflow checks refuses; the model takes the prefix of a build without them, 255.
- Decoding of a program blob into code, bitmask and jump table: taken as decoded.
- BlockImport.CheckGuarantees: does not model the error codes; the checks of anchors, roots, authorizers, services and sizes are one given outcome per guarantee.
- BlockImport.Import: does not model chapters outside the package life cycle, and is for blocks whose slot is ahead of the last imported one; for others the code's slot difference underflows.
- Disputes: a step that clears any set of judged reports. Whether the block's tickets are accepted is given, so the recorded slot may lag.
- Statistics, authorization pools and queues, preimages supplied by a block, the header checks, serialization.
- Ed25519, the ring VRF, Blake2b and Keccak.
- The Merkle tree over accumulation outputs in src/accumulate.rs: one more hash recursion of the kind proved in `Trie` and `Mmr`.
- Guarantors.CheckCredentials: the message that a credential signs, the tag and hash of its report, is part of the signature-check parameter; the list of reporters is not modelled.
- Guarantors.ThreePerCore: for validator counts that are multiples of three; the tiny parameters fix six.
