# BitVMX-CPU in Dafny

BitVMX-CPU lets a prover and a verifier settle on Bitcoin which of them executed a RISC-V
program correctly. Both run an emulator that hashes every step. An n-ary search over the hashes
isolates one step; the verifier then challenges the prover's record of that step, or a script
recomputes it from base-16 digits and small lookup tables. This project models that system and
proves what the parties rely on. `dafny verify dfyconfig.toml` checks all of it.

The layers, from the bottom up:

* **Words.** `Options`, `Bits`, `WordBits`: bitwise operations as recursive functions on
  naturals, shifts, bytes of words. `WordArithmetic`: the emulator's arithmetic in machine
  integers, and what the RISC-V architecture asks of it; `Architecture`: what it asks of branches,
  jumps and results, in numbers and bits.
* **The search.** `NArySearch` (definition, required steps, choice of a segment), `StepMapping`
  (which hash of which round stands for a step), `Trace` (records, bytes, hash chain), `Dispute`
  (the two challenge logs as classes, and every run of the two-party protocol). The prover is an
  arbitrary function of the round and its base step, which is an arbitrary adaptive strategy.
* **Memory and the emulator.** `SectionMemory` and `SectionIndex` (the section list against plain
  word memory), `Machine` (what each instruction reads, writes and does next, on values),
  `Programs` and `Fetcher` (the same as classes updated in place, proved against `Machine`),
  `CodeChunks` (the numbering of code chunks), `Loader` (from an image to a loaded program), `Runs`
  (whole runs and their traces), `ByteMemory` and `LoadMemory` (micro-stepped stores and loads
  against byte memory), `MicroStates`, `RomCommitments` and `CommittedData` (reachable
  micro-states, and that every word is committed once), `Execution`, `Resuming` and `Checkpoints`
  (the execution loop, resuming, round answers).
* **The scripts.** `Nibbles`, `NibbleArithmetic`, `Multiplication`, `SignedProduct`, `Division`,
  `SignedDivision`, `Shifts`, `NibbleLogic`, `Alignment`: the digit routines as loops, with the
  range of every table as a precondition of the lookup. `ScriptOutcomes` says on words what each
  script accepts; `Scripts` and `MemoryScripts` prove the digit scripts against it wherever they
  stay inside their tables (`MemoryScripts.Decided`); `ScriptAgreement` proves which steps of the
  emulator the digit scripts accept; `UniqueResults` that they accept no other result.
* **The end of a dispute.** `Challenges` (the verifier's decision tree and the win conditions),
  `HashScripts` and `ChallengeScripts` (the challenge scripts on digits), `DisputeOutcome` (the
  search, the checkpoints, the decision tree and the scripts put together), `HonestProver` (the
  other side: a prover that reveals its own execution loses no challenge), `Parties` (the first
  execution, the decision to challenge, the final trace).

Main results: `Dispute.DisputeConverges`, `Runs.ReadsAreConsistent`,
`ByteMemory.StoreRefinesBytes`, `LoadMemory.LoadRefinesBytes`,
`RomCommitments.ExecutedIsCommitted`, `Checkpoints.PartyIsHonest`,
`SectionIndex.TablesAgreeWithMemory`, `Loader.LoadSections`, `Multiplication.Multiply` with
`WordProductsFit`, `Division.AcceptedIsTrueWithoutOverflow` with its signed counterpart,
`ScriptAgreement.RunsAreAccepted`, `UniqueResults.OneResult`, `Challenges.ChosenChallengeWins`,
`DisputeOutcome.DisputeCatchesProver` and `HonestProver.HonestProverIsSafe`.

Where the code does less than one may expect, the project says exactly when it does meet the
property:

* A checkpoint of a state that had already halted, or had reached the step limit, does not resume
  as the uninterrupted run (`Resuming.ResumeEqualsFullRun`, with `HaltedProgram` as an instance).
* The prover's final trace is executed again from the nearest checkpoint, which records nothing of
  the step it was saved at. If the isolated step ends there, the honest prover reveals a default
  record and loses (`Parties.RecordOfStep`, `Parties.CheckpointStepLoses`).
* The division check compares modulo 2^32, so it accepts a false pair when divisor times quotient
  plus remainder leaves the word; signed division multiplies magnitudes in the same check
  (`Division.AcceptedIsTrueWithoutOverflow`, `Division.FalseDivisionIsAccepted`,
  `SignedDivision.SignedAcceptedIsTrueWithoutOverflow`).
* The sign test of signed division rejects a zero quotient of operands of opposite signs, so an
  honest -1 / 2 has no accepting script (`SignedDivision.HonestSignedDivision`,
  `HonestDivisionIsRefused`); neither has a halt with a non-zero exit code. These are the only
  refused steps (`ScriptAgreement.StepAgrees`).
* A signed division by -1 yields the dividend, where the M extension of RISC-V negates it
  (`WordArithmetic.ConformsUnlessNegated`, `DivisionByMinusOneKeepsSign`).
* An indirect jump keeps the low bit of its target, which the architecture clears; it conforms
  exactly if the sum of register and immediate is even (`Architecture.JalrConforms`).
* A multiplication can leave the 128-entry tables (`Multiplication.LargeProductsLeaveTheTables`);
  the scripts are specified, and results about them stated, where it does not.
* The address script also succeeds on an unaligned address of an access that is marked as unused,
  which the verifier's own test lets pass (`HonestProver.AddressesAreDecided`).
* A verifier whose own step is an error challenges even a true program counter
  (`Challenges.FailedStepChallenge`, with `FailedStepCanLose` as an instance).
* Of the values a step uses, only words that still have their loaded value, constants or input,
  are challenged; a prover that misreports any other is among the outcomes of
  `DisputeOutcome.WrongStepIsCaught`. A value in a read that neither record uses changes nothing.

Conventions. A hash function is a parameter, of which only determinism is used; where binding is
meant, the conclusion exhibits a collision. An aborting Rust call is an `Option` or an `Abort`
case. Instructions come decoded, with sign-extended immediates; the byte order of section data in
files is composed away.

## Model

| member | source | states |
|---|---|---|
| NArySearch.NewIsValid | emulator/src/decision/nary_search.rs:15-34 | for a power-of-two arity the definition covers the requested steps with the least power of two, and its last round is smaller than the others |
| NArySearch.NArySearchDefinition.StepBitsIsDigit | emulator/src/decision/nary_search.rs:84-93 | masking and shifting reads exactly the round's mixed-radix digit of the step |
| NArySearch.NArySearchDefinition.StepFromBaseIsSum | emulator/src/decision/nary_search.rs:95-102 | a digit moves the base by that many segment lengths, also when the digit overflows its round |
| NArySearch.NArySearchDefinition.IntervalIsWeight | emulator/src/decision/nary_search.rs:68 | dividing the step count by a power of the arity gives the segment length that the shifts use |
| NArySearch.NArySearchDefinition.RequiredSteps | emulator/src/decision/nary_search.rs:64-78 | the asked steps are the interior segment borders of the interval, in order |
| NArySearch.ChooseSegment | emulator/src/decision/nary_search.rs:153-191 | the loop picks the first differing hash and the segment, new base and lowered choice that go with it; a shorter verifier list aborts |
| NArySearch.SegmentNarrows | emulator/src/decision/nary_search.rs:165-190 | the new segment lies inside the old one, is aligned, holds the choice, never raises it, and a lowered choice sits just below the first differing hash |
| NArySearch.MismatchAboveIsIgnored | emulator/src/decision/nary_search.rs:173-188 | a difference above the selected step leaves base and choice as if there were none |
| NArySearch.PaddingIsHarmless | emulator/src/decision/nary_search.rs:165-190 | the decision depends only on hashes of steps up to the selected one, whatever either list holds beyond |
| StepMapping.SpeakerIsUnique | emulator/src/decision/nary_search.rs:104-120 | over all decisions, no step is asked for in two places |
| StepMapping.BaseIsSpokenFor | emulator/src/decision/nary_search.rs:104-120 | every base after any number of rounds is step 0 or was asked for |
| StepMapping.SegmentEndIsSpokenFor | emulator/src/decision/nary_search.rs:104-120 | the step after a segment is asked for too, also when adding one carries through several rounds, unless it is the step limit |
| StepMapping.BuildStepMapping | emulator/src/decision/nary_search.rs:104-120 | the map holds exactly the asked steps, each at its one round and index; its size says that no insertion overwrites another |
| StepMapping.GetHashes | emulator/src/decision/challenge.rs:213-235 | both lookups succeed exactly when the keys are there, and return the hashes stored at their round and index |
| Trace.ToBytesInjective | definitions/src/trace.rs:112-119 | two trace steps with the same thirteen bytes are the same |
| Trace.ChainBinds | definitions/src/trace.rs:198-210 | equal hashes after equally many steps mean equal written traces, or exhibit two different inputs of one step with the same hash |
| Dispute.RoundConverges | emulator/src/decision/challenge.rs:151-186 | one round keeps, against any prover list: alignment, the choice inside the segment, agreement at the base, difference just above a lowered choice |
| Dispute.DisputeConverges | emulator/src/decision/challenge.rs:151-186 | against every adaptive prover the search ends with base equal to the choice `s`; the prover's hash for `s` is the verifier's; `s` is the start or the prover's hash for `s + 1` differs |
| Dispute.FillersNeverMatter | emulator/src/loader/program_definition.rs:165-178 | any two honest sources with any fillers past the start give the same search, round for round |
| Dispute.VerifierChallengeLog.CheckExecution | emulator/src/decision/challenge.rs:124-141 | the new log starts one step before the earlier of the two ends, with no rounds |
| Dispute.VerifierChallengeLog.ChooseSegment | emulator/src/decision/challenge.rs:151-186 | the log after a round is the next search state, or untouched if the comparison aborts |
| Dispute.LookupFinds | emulator/src/decision/challenge.rs:213-235 | after a finished search the map holds `s` if it is not 0, and `s + 1` exactly if it is below the step limit; the entries are the compared hashes |
| Dispute.VerifierChallengeLog.CommittedHashes | emulator/src/decision/challenge.rs:272-280 | the pair looked up is the agreed hash of `s` and, before the start, a wrong hash of `s + 1` |
| Dispute.ProverChallengeLog.GetHashesForRound | emulator/src/decision/challenge.rs:55-85 | the prover's log moves to the base that the last decision names and stores the hashes it answers with |
| Dispute.ProverChallengeLog.FinalTrace | emulator/src/decision/challenge.rs:188-211 | the log moves to the base that the final digit names and stores the record given for it; `Parties.ProverFinalTrace` supplies that record |
| Dispute.FinalStepIsNext | emulator/src/decision/challenge.rs:188-203 | one more than the last digit names exactly `s + 1`, also when it leaves its round |
| Dispute.RunRound | emulator/src/decision/challenge.rs:55-186 | one round of both parties keeps their logs in step |
| Dispute.RunDispute | emulator/src/decision/challenge.rs:55-211 | over a whole dispute both logs agree in every round and the prover reveals the trace of `s + 1` |
| SectionMemory.LocateUnique | emulator/src/loader/program.rs:303-322 | at most one section holds an address, and locating finds it |
| SectionMemory.WriteMemExact | emulator/src/loader/program.rs:375-384 | a write changes one word and its time stamp; every other read, write permission and section stays |
| SectionIndex.MergeKeepsOrder | emulator/src/loader/program.rs:84-109 | joining two adjacent compatible sections orders a list exactly if it was ordered |
| SectionIndex.MergeKeepsCells | emulator/src/loader/program.rs:84-109 | joining two adjacent compatible sections changes what no address meets |
| SectionIndex.MergeKeepsListing | emulator/src/loader/program.rs:92-109 | in any list, ordered or not, joining keeps every word at its address with its time stamp and permissions |
| SectionIndex.SortedWithoutOverlapIsOrdered | emulator/src/loader/program.rs:276-301 | sections sorted by start that pass the overlap test are ordered end to start |
| SectionIndex.TableLocates | emulator/src/loader/program.rs:259-274 | a range table holds an aligned address exactly when the section there is one the table lists |
| SectionIndex.CellMeans | emulator/src/loader/program.rs:311-397 | what a cell says is what reads, writes and time stamps at its address give, errors included |
| SectionIndex.WholeWord | emulator/src/loader/program.rs:77-80 | an address is contained exactly when all four bytes of its word are in the section |
| SectionIndex.TablesAgreeWithMemory | emulator/src/loader/program.rs:435-455 | for aligned addresses the tables say exactly when a read succeeds, when a write succeeds, and what is a register or code |
| Programs.Registers.constructor | emulator/src/loader/program.rs:133-141 | all registers are zero but the stack pointer, and none was ever written |
| Programs.Registers.Set | emulator/src/loader/program.rs:159-165 | one register and its time stamp change; register zero may not be written |
| Programs.Program.constructor | emulator/src/loader/program.rs:225-240 | an empty program at its entry point with the initial hash |
| Programs.Program.Restore | emulator/src/loader/program.rs:212-223 | a restored program is the saved state, range tables included |
| Programs.Program.AddSection | emulator/src/loader/program.rs:295-301 | the section is inserted once and the list stays sorted |
| Programs.Program.MergeSections | emulator/src/loader/program.rs:242-257 | for lists in any order, overlapping or not: every word stays, in the same sequence, with its time stamp, permissions and initialized flag; an ordered list stays ordered and no other becomes so; two neighbours that still touch differ in a flag |
| Programs.Program.GenerateSectionsDefinitions | emulator/src/loader/program.rs:259-274 | each table gets one range per listed section; from empty tables they are the tables of the section list |
| Programs.Program.SanityCheck | emulator/src/loader/program.rs:276-293 | accepts exactly when no two sections overlap |
| Loader.AddImage | emulator/src/loader/program.rs:616-649 | inserting section by section gives a list in start order of exactly the register file and the image |
| Loader.MergedIsApart | emulator/src/loader/program.rs:651-653 | the overlap test after merging accepts exactly the images whose sections and the register file do not overlap, and then the list is ordered |
| Loader.LoadSections | emulator/src/loader/program.rs:584-656 | loading fails exactly on an overlap; otherwise the program is freshly loaded with its range tables, and memory holds every word of the image and nothing else but the registers |
| Programs.Program.FindSectionIdx | emulator/src/loader/program.rs:303-322 | the binary search finds the one section that holds the address, or none |
| Programs.Program.FindSection | emulator/src/loader/program.rs:325-337 | the located section, or the two error cases |
| Programs.Program.ReadMem | emulator/src/loader/program.rs:360-368 | the word of the located section |
| Programs.Program.WriteMem | emulator/src/loader/program.rs:375-384 | only the sections change, as the memory model says, or nothing on an error |
| Programs.Program.GetChunkInfo | emulator/src/loader/program.rs:504-539 | the counting loop returns the number, base address and first word of the chunk around a code address |
| Machine.OutcomeIsPossible | emulator/src/executor/fetcher.rs:249-326 | no instruction writes register zero, and memory is accessed only at aligned words that exist |
| CodeChunks.ChunkNumbersName | emulator/src/loader/program.rs:504-539 | two code addresses get the same chunk number exactly if they get the same chunk base, which is at most a chunk below; numbers grow with addresses |
| CodeChunks.ChunkNumbersAreDense | emulator/src/loader/program.rs:504-539 | the numbers that code addresses get are exactly those below the count of chunks, the shorter last ones of each section included |
| Fetcher.OpEcall | emulator/src/executor/fetcher.rs:328-388 | the method updates the program and reports as the machine model says; a halting call sets the halt flag |
| Fetcher.OpConditional | emulator/src/executor/fetcher.rs:390-424 | a branch changes only the program counter, by the condition |
| Fetcher.OpJal | emulator/src/executor/fetcher.rs:426-459 | a jump writes the link unless the register is zero |
| Fetcher.OpJalr | emulator/src/executor/fetcher.rs:461-494 | an indirect jump uses the old register value even if it overwrites it |
| WordArithmetic.Arithmetic | emulator/src/executor/fetcher.rs:550-597 | in 32- and 64-bit machine integers, none of which overflows, the result is the machine model's |
| WordArithmetic.Witness | emulator/src/executor/fetcher.rs:522-548 | the hint of a division is the result of the other half |
| WordArithmetic.ArithmeticImm | emulator/src/executor/fetcher.rs:640-649 | operations with an immediate in machine integers |
| WordArithmetic.ShiftSl | emulator/src/executor/fetcher.rs:679-699 | masked amounts and bit-by-bit shifts multiply or divide by powers of two; a signed shift rounds down |
| WordArithmetic.ShiftImm | emulator/src/executor/fetcher.rs:730-735 | the same for constant amounts |
| Architecture.BranchConforms | emulator/src/executor/fetcher.rs:390-424 | each of the six branches goes to the program counter plus the immediate exactly if the numbers in the registers, signed ones in two's complement, are related as its name says, and to the next instruction otherwise |
| Architecture.JalConforms | emulator/src/executor/fetcher.rs:426-459 | target and link are congruent to program counter plus immediate and plus four; register zero takes no link |
| Architecture.JalrConforms | emulator/src/executor/fetcher.rs:461-494 | the target is congruent to register plus immediate; it is the architecture's exactly if that sum is even |
| Architecture.ArithConforms | emulator/src/executor/fetcher.rs:496-611 | sums and differences are congruent to those of the numbers, logic acts on each bit, multiplications and divisions conform unless by minus one |
| Architecture.ComparisonConforms | emulator/src/executor/fetcher.rs:659-710 | one exactly if the first number, signed or not, is smaller, else zero |
| Architecture.ShiftConforms | emulator/src/executor/fetcher.rs:659-710 | a left shift is congruent to the product with a power of two, right shifts are quotients rounded down, of the signed number for the arithmetic one; the low five bits are the amount |
| Architecture.ImmediateConforms | emulator/src/executor/fetcher.rs:613-657 | an operation with an immediate is the register operation of its name |
| Architecture.ShiftImmConforms | emulator/src/executor/fetcher.rs:712-746 | a shift by a constant is the register shift of its name |
| Architecture.ResultConforms | emulator/src/executor/fetcher.rs:496-1120 | which registers each result instruction reads, where its result goes, and that the next instruction follows; with register zero as target it reads and writes nothing |
| Architecture.HaltConforms | emulator/src/executor/fetcher.rs:328-388 | a call with 93 in x17 halts with x10 as exit code and leaves the program counter |
| Architecture.NothingConforms | emulator/src/executor/fetcher.rs:249-326 | fences, breakpoints and other calls only go on |
| WordArithmetic.ConformsUnlessNegated | emulator/src/executor/fetcher.rs:522-597 | multiplications and divisions are those of the RISC-V M extension if and only if it is no signed division of a number other than 0 and -2^31 by -1, whose sign the code keeps |
| WordArithmetic.DivisionByMinusOneKeepsSign | emulator/src/executor/fetcher.rs:566-571 | the failing case: 5 divided by -1 is 5 |
| Fetcher.OpArithmetic | emulator/src/executor/fetcher.rs:496-611 | the result, and the other half of a division as a hint, are written and reported as the machine model says |
| Fetcher.OpArithmeticImm | emulator/src/executor/fetcher.rs:613-657 | register and immediate, against the machine model |
| Fetcher.OpShiftSl | emulator/src/executor/fetcher.rs:659-710 | shifts and comparisons by a register, against the machine model |
| Fetcher.OpShiftImm | emulator/src/executor/fetcher.rs:712-746 | shifts by a constant, against the machine model |
| Fetcher.OpSlImm | emulator/src/executor/fetcher.rs:748-795 | comparisons with a constant, against the machine model |
| Fetcher.OpUpper | emulator/src/executor/fetcher.rs:1084-1120 | upper immediates, against the machine model |
| Fetcher.OpStore | emulator/src/executor/fetcher.rs:816-964 | every store micro-step, in place, is the modelled one, including the error and unreachable cases |
| Fetcher.OpLoad | emulator/src/executor/fetcher.rs:972-1082 | every load micro-step, in place, is the modelled one, including the error and unreachable cases |
| Fetcher.ExecuteStep | emulator/src/executor/fetcher.rs:249-326 | one in-place step is the machine model's step: same state, trace, error or abort |
| Runs.TickChangesOnlyItsTrace | emulator/src/executor/fetcher.rs:249-326 | a step changes one location, the one its trace reports, besides program counter, step, hash and halt flag |
| Runs.UnusedIsZero | definitions/src/trace.rs:37-58 | reads and writes that a step does not use are zero in its record |
| Runs.ReadsAreConsistent | emulator/src/executor/fetcher.rs:249-326 | in every step of every run each used read reports the last write to its address before the step, with that step's number, or the initial value with the initial marker |
| ByteMemory.StoreRound1 | emulator/src/executor/alignment_masks.rs:3-27 | the first masks and moves splice exactly the low bytes of the register into the word |
| ByteMemory.StoreRound2 | emulator/src/executor/alignment_masks.rs:29-43 | the second masks and moves splice exactly the remaining bytes into the next word |
| ByteMemory.StoreRefinesBytes | emulator/src/executor/fetcher.rs:816-964 | for every width, alignment and contents, the micro-steps, 1 for an aligned word, 4 inside a word, 8 across two, write exactly the addressed bytes, little-endian, and no other byte or register |
| LoadMemory.LoadInOneWord | emulator/src/executor/alignment_masks.rs:63-88 | mask, move and extension give the addressed bytes of one word |
| LoadMemory.LoadInTwoWords | emulator/src/executor/alignment_masks.rs:63-104 | the parts of two words combine to the addressed bytes |
| LoadMemory.LoadRefinesBytes | emulator/src/executor/fetcher.rs:972-1082 | for every width, alignment and contents, the micro-steps, 1 inside a word, 4 across two, put the extended bytes into the register and change nothing else but the auxiliary registers |
| LoadMemory.LoadIntoZero | emulator/src/executor/fetcher.rs:972-985 | a load into register zero is one step without effect |
| MicroStates.NeverAborts | emulator/src/executor/fetcher.rs:816-1082 | from a legal micro-state no unreachable mask or micro-step is entered, and the counter is below the committed number |
| MicroStates.CodeIsConstant | emulator/src/loader/program.rs:375-384 | no run changes a word of code |
| MicroStates.RunsStayExecuting | bitcoin-script-riscv/src/riscv/instruction_mapping.rs:131-141 | every state of a run that stays in code is in a legal micro-state |
| MicroStates.StoreMicrosAreTight | bitcoin-script-riscv/src/riscv/instruction_mapping.rs:131-141 | the committed number of a store is the largest number of micro-steps its width takes at any alignment |
| MicroStates.LoadMicrosAreTight | bitcoin-script-riscv/src/riscv/instruction_mapping.rs:131-141 | so is that of a load |
| MicroStates.LastMicroIsNeeded | bitcoin-script-riscv/src/riscv/instruction_mapping.rs:131-141 | for some register value the last committed micro-step of a load or store is a legal state; any other instruction has micro-step 0 only |
| RomCommitments.GenerateRomCommitment | emulator/src/loader/program.rs:673-733 | the loops list every micro-step of every code word, the constants and the zero ranges; they fail exactly on undecodable code or a register file that is code or initialized |
| RomCommitments.CommittedExactly | emulator/src/loader/program.rs:682-706 | an entry is listed exactly when its word is code and its micro-step is below what the instruction needs |
| CommittedData.ConstantsExactly | emulator/src/loader/program.rs:707-717 | (address, value) is a constant exactly if the address is an aligned word of initialized memory that is no code and reads as the value |
| CommittedData.ZeroRangesExactly | emulator/src/loader/program.rs:718-727 | an address is in a zero range exactly if it is in the register file or in uninitialized memory that is no code |
| CommittedData.CommittedOnce | emulator/src/loader/program.rs:673-733 | every word of memory is committed in exactly one of code, constants and zero ranges, and no other address in any |
| CommittedData.ConstantsAscend | emulator/src/loader/program.rs:707-717 | constants are listed in address order, each once |
| CommittedData.ZeroRangesAscend | emulator/src/loader/program.rs:718-727 | so are the zero ranges |
| CommittedData.CodeInOrder | emulator/src/loader/program.rs:682-706 | code is listed in address order, the micro-steps of a word in their order, each once |
| CommittedData.LoadedRegisters | emulator/src/loader/program.rs:578-610 | what a loaded program starts with, in numbers: register file, stack pointer, program counter and hash |
| RomCommitments.ExecutedIsCommitted | emulator/src/loader/program.rs:682-706 | every step of every run executes a listed (address, micro-step, opcode) |
| Execution.TurnsCompose | emulator/src/executor/fetcher.rs:78-214 | turns go on exactly while none has stopped the loop |
| Execution.ExecuteProgram | emulator/src/executor/fetcher.rs:19-225 | from any start and with any limit or none, the loop ends at the first stopping turn, collects the asked entries in order, and saves the start and every checkpoint; only a run that uses up the step counter has no end |
| Resuming.ResumeEqualsFullRun | emulator/src/loader/program_definition.rs:62-84 | a resumed run makes the turns of the uninterrupted one if and only if the saved state had not stopped it, or its next instruction does not decode or is in an unreachable micro-step |
| Resuming.StuckOnlyAtLimit | emulator/src/loader/program_definition.rs:62-84 | of the stopped states only one at the step limit can be of that second kind |
| Resuming.ExecutingResumes | emulator/src/loader/program_definition.rs:62-84 | in legal micro-states of decodable code a run resumes as the uninterrupted one exactly when the state had not stopped it |
| Resuming.HaltedResumesAgain | emulator/src/loader/program_definition.rs:62-84 | the failing family: a saved state that had halted halts once more, one step later, when resumed |
| Resuming.StopReasons | emulator/src/executor/fetcher.rs:200-214 | a turn stops at the exit call with its code, even at the limit, at an error with that error, at the limit after any other step, and else goes on |
| Resuming.HaltedProgram | emulator/src/loader/program_definition.rs:62-84 | a loaded two-instruction program whose halted state does not resume as the uninterrupted run |
| Checkpoints.LoadProgramFromCheckpoint | emulator/src/loader/program_definition.rs:62-84 | the loop finds the last checkpoint at or before the step |
| Checkpoints.CollectedInOrder | emulator/src/executor/fetcher.rs:66-72 | the collected entries are those of the asked steps reached so far, in order |
| Checkpoints.PadHashes | emulator/src/loader/program_definition.rs:165-178 | the base entry is skipped unless it is the only one, and the list is filled with copies of the last hash |
| Checkpoints.GetRoundHashes | emulator/src/loader/program_definition.rs:145-179 | the answer carries the right hash of every asked step the run reaches |
| Checkpoints.CheckpointRun | emulator/src/loader/program_definition.rs:62-84 | from any checkpoint before the end the resumed run ends at the same step through the same hashes |
| Checkpoints.AnswersAreHonest | emulator/src/loader/program_definition.rs:145-179 | the answers a party computes from its checkpoints are those of its run from step 0 |
| Checkpoints.PartyIsHonest | emulator/src/decision/challenge.rs:152-186 | a party that computes every answer so is honest in every round of a search that starts before the end of its run, the premise of the search and of the dispute |
| NibbleArithmetic.AddWithBitExtension | bitcoin-script-riscv/src/riscv/operations.rs:42-90 | the sum modulo 2^32 with the operand filled up by its extension digit; every lookup inside 32 entries |
| NibbleArithmetic.PcNext | bitcoin-script-riscv/src/riscv/operations.rs:13-40 | the word plus 4 modulo 2^32 |
| NibbleArithmetic.Sub | bitcoin-script-riscv/src/riscv/operations.rs:92-139 | the difference modulo 2^32 |
| NibbleArithmetic.TwosComplement | bitcoin-script-riscv/src/riscv/script_utils.rs:962-1002 | the negation modulo 16^size, for any size |
| NibbleArithmetic.IsEqualTo | bitcoin-script-riscv/src/riscv/script_utils.rs:610-631 | eight equal digits exactly when the words are equal |
| NibbleArithmetic.IsLowerThan | bitcoin-script-riscv/src/riscv/script_utils.rs:633-707 | the weighted sum is positive exactly when the first word is lower, unsigned or in two's complement |
| NibbleArithmetic.BitExtend | bitcoin-script-riscv/src/riscv/operations.rs:194-215 | fills up with the sign digit |
| NibbleArithmetic.SignExtends | bitcoin-script-riscv/src/riscv/operations.rs:194-215 | filling up with the sign digit keeps the two's complement reading |
| Multiplication.LogicTable | bitcoin-script-riscv/src/riscv/script_utils.rs:343-359 | the stacked table lists the rows of the triangle in order |
| Multiplication.HalfLookup | bitcoin-script-riscv/src/riscv/script_utils.rs:317-332 | the running sums are the row offsets |
| Multiplication.RowsAt | bitcoin-script-riscv/src/riscv/script_utils.rs:317-359 | a sorted pair of digits finds its own entry in the half table |
| Multiplication.LookupProduct | bitcoin-script-riscv/src/riscv/script_utils.rs:831-867 | low and high digit of a digit product in either order |
| Multiplication.DiagonalColumns | bitcoin-script-riscv/src/riscv/script_utils.rs:869-915 | the diagonal loops build the column sums |
| Multiplication.ColumnsMultiply | bitcoin-script-riscv/src/riscv/script_utils.rs:869-915 | for all words the column sums reassemble to the product |
| Multiplication.CarryPass | bitcoin-script-riscv/src/riscv/script_utils.rs:920-940 | the carry pass turns columns into base-16 digits of the same value when every column with its carry is below 128 |
| Multiplication.Multiply | bitcoin-script-riscv/src/riscv/script_utils.rs:869-960 | low word, high word or double word of the product, when the columns fit the tables |
| Multiplication.WordProductsFit | bitcoin-script-riscv/src/riscv/script_utils.rs:920-940 | a product below 2^32 keeps every column with its carry at 123 or less |
| Multiplication.LargeProductsLeaveTheTables | bitcoin-script-riscv/src/riscv/script_utils.rs:920-940 | all-0xB times all-0xD has a column of 176, outside the tables |
| SignedProduct.Mulh | bitcoin-script-riscv/src/riscv/script_utils.rs:1031-1076 | the high word of a signed or mixed product is the emulator's |
| Division.DivCheck | bitcoin-script-riscv/src/riscv/script_utils.rs:1078-1111 | accepts exactly: remainder below divisor, product below 2^32, difference equal to the remainder modulo 2^32 |
| Division.DivisionAndRemainder | bitcoin-script-riscv/src/riscv/script_utils.rs:1208-1252 | fixed result for a zero divisor, otherwise the checked value or failure |
| Division.Divu | bitcoin-script-riscv/src/riscv/script_utils.rs:1254-1273 | the quotient, or all ones for a zero divisor |
| Division.Remu | bitcoin-script-riscv/src/riscv/script_utils.rs:1275-1286 | the remainder, or the dividend for a zero divisor |
| Division.HonestDivisionPasses | emulator/src/executor/fetcher.rs:522-590 | the pair the emulator computes is accepted, inside every table |
| Division.AcceptedIsTrueWithoutOverflow | bitcoin-script-riscv/src/riscv/script_utils.rs:1078-1111 | an accepted pair is the true quotient and remainder exactly when divisor times quotient plus remainder is below 2^32 |
| Division.FalseDivisionIsAccepted | bitcoin-script-riscv/src/riscv/script_utils.rs:1078-1111 | a false pair that is accepted: 4 by 2^32 - 1 as quotient 1, remainder 5 |
| SignedDivision.SignCheck | bitcoin-script-riscv/src/riscv/script_utils.rs:1113-1179 | passes exactly if the remainder is zero or has the dividend's sign and the quotient's sign bit is that of the operands' difference; returns the magnitudes |
| SignedDivision.DivisionAndRemainderSigned | bitcoin-script-riscv/src/riscv/script_utils.rs:1288-1359 | two fixed divisors, then the sign test and the unsigned check of the magnitudes |
| SignedDivision.DivScript | bitcoin-script-riscv/src/riscv/script_utils.rs:1361-1382 | the quotient, all ones for a zero divisor, the dividend for minus one |
| SignedDivision.RemScript | bitcoin-script-riscv/src/riscv/script_utils.rs:1384-1405 | the remainder, the dividend for a zero divisor, zero for minus one |
| SignedDivision.HonestSignedDivision | emulator/src/executor/fetcher.rs:522-590 | the emulator's signed pair stays in the tables and is accepted exactly if it is no zero quotient of operands of opposite signs |
| SignedDivision.HonestDivisionIsRefused | bitcoin-script-riscv/src/riscv/script_utils.rs:1113-1179 | the failing case: -1 divided by 2 is refused |
| SignedDivision.SignedAcceptedIsTrueWithoutOverflow | bitcoin-script-riscv/src/riscv/script_utils.rs:1113-1359 | an accepted signed pair is the truncated quotient and remainder exactly when the magnitudes add up inside a word |
| Shifts.NibToBin | bitcoin-script-riscv/src/riscv/script_utils.rs:42-68 | the four bits of a digit |
| Shifts.ShiftNumber | bitcoin-script-riscv/src/riscv/script_utils.rs:71-142 | the picked window is the left, logical right or arithmetic right shift for every amount up to 32 |
| Shifts.U4ToU8 | bitcoin-script-riscv/src/riscv/script_utils.rs:10-18 | the number of two digits |
| Shifts.ShiftValueWithBits | bitcoin-script-riscv/src/riscv/operations.rs:172-192 | the same with the amount given as two digits |
| Shifts.ShiftsAreTheEmulators | emulator/src/executor/fetcher.rs:659-710 | these shifts are the emulator's for every register amount |
| NibbleLogic.DigitwiseLogic | bitcoin-script-riscv/src/riscv/script_utils.rs:572-580 | digit-wise AND, OR and XOR are the word-wide operations |
| NibbleLogic.LogicWithBitExtension | bitcoin-script-riscv/src/riscv/operations.rs:141-170 | AND, OR or XOR of a word with an extended operand, through half tables |
| Alignment.AlignMemory | bitcoin-script-riscv/src/riscv/memory_alignment.rs:51-78 | the address without its low two bits, and those bits |
| Alignment.ValidateRegisterAddress | bitcoin-script-riscv/src/riscv/instructions.rs:23-44 | accepts exactly the register's address, two digits at a time |
| Alignment.WordTable | bitcoin-script-riscv/src/riscv/script_utils.rs:752-761 | the words lie on the stack with the first on top |
| Alignment.Peek | bitcoin-script-riscv/src/riscv/script_utils.rs:769-789 | the depth arithmetic picks exactly the indexed word |
| Alignment.MaskValue | bitcoin-script-riscv/src/riscv/script_utils.rs:723-747 | keeps the digits whose mask digit is not zero |
| Alignment.MaskedIsAnd | bitcoin-script-riscv/src/riscv/script_utils.rs:723-747 | masking with ones and zeros is AND with the widened mask |
| Alignment.TablesAreFlags | bitcoin-script-riscv/src/riscv/memory_alignment.rs:145-217 | every table entry covers whole bytes |
| Alignment.LeftRotate | bitcoin-script-riscv/src/riscv/script_utils.rs:792-829 | rolling digits from the doubled word rotates by whole bytes |
| Alignment.ChooseNibbles | bitcoin-script-riscv/src/riscv/memory_alignment.rs:81-143 | the picked digits are the padded word's quotient and remainder by powers of 16, sign- or zero-extended |
| Scripts.OpNop | bitcoin-script-riscv/src/riscv/instructions.rs:55-78 | the no-operation script |
| Scripts.OpEcall | bitcoin-script-riscv/src/riscv/instructions.rs:83-160 | accepts a halt only with exit code zero; any other call is a no-operation |
| Scripts.OpConditional | bitcoin-script-riscv/src/riscv/instructions.rs:162-252 | the six branches from one comparison and one inversion |
| Scripts.StoreIfNotZero | bitcoin-script-riscv/src/riscv/instructions.rs:254-304 | the link write, or none for register zero |
| Scripts.OpJal | bitcoin-script-riscv/src/riscv/instructions.rs:306-353 | the jump script |
| Scripts.OpJalr | bitcoin-script-riscv/src/riscv/instructions.rs:355-406 | the indirect jump script |
| Scripts.OpArithmeticImm | bitcoin-script-riscv/src/riscv/instructions.rs:408-492 | the nine register-immediate operations |
| Scripts.OpArithmetic | bitcoin-script-riscv/src/riscv/instructions.rs:494-694 | the eighteen register-register operations, by value or by check, inside the tables |
| Scripts.OpUpper | bitcoin-script-riscv/src/riscv/instructions.rs:696-754 | upper immediates |
| Scripts.ArithmeticWord | bitcoin-script-riscv/src/riscv/instructions.rs:586-680 | digits of the emulator's result of every multiplication, sum, difference and logic operation |
| Scripts.CompareWord | bitcoin-script-riscv/src/riscv/instructions.rs:661-677 | digits of the emulator's result of every comparison and shift |
| Scripts.IsLowerThanSlti | bitcoin-script-riscv/src/riscv/operations.rs:217-246 | a comparison as a word |
| Scripts.DivisionWord | bitcoin-script-riscv/src/riscv/instructions.rs:603-640 | the four divisions: fixed result, checked value or failure |
| Scripts.HonestOperandsStayInTables | bitcoin-script-riscv/src/riscv/instructions.rs:586-680 | the emulator's divisions, and every product of words or magnitudes below 2^32, stay inside the tables |
| MemoryScripts.OpStoreMicro0 | bitcoin-script-riscv/src/riscv/instructions_store.rs:30-202 | store micro-steps 0 and 4: aligned write, or the masked memory word |
| MemoryScripts.OpStoreMicro1 | bitcoin-script-riscv/src/riscv/instructions_store.rs:204-286 | store micro-steps 1 and 5: masked and rotated register |
| MemoryScripts.OpStoreMicro2 | bitcoin-script-riscv/src/riscv/instructions_store.rs:288-348 | store micro-steps 2 and 6: digit sums without carry |
| MemoryScripts.OpStoreMicro3 | bitcoin-script-riscv/src/riscv/instructions_store.rs:350-446 | store micro-steps 3 and 7: the write, and whether a second word follows |
| MemoryScripts.OpStore | bitcoin-script-riscv/src/riscv/instructions_store.rs:13-28 | the store script of any micro-step |
| MemoryScripts.OpLoadMicro0 | bitcoin-script-riscv/src/riscv/instructions_load.rs:29-245 | load micro-step 0 in both alignments |
| MemoryScripts.OpLoadMicro1 | bitcoin-script-riscv/src/riscv/instructions_load.rs:247-333 | load micro-step 1: the next word's part |
| MemoryScripts.OpLoadMicro2 | bitcoin-script-riscv/src/riscv/instructions_load.rs:335-395 | load micro-step 2: the OR of both parts |
| MemoryScripts.OpLoadMicro3 | bitcoin-script-riscv/src/riscv/instructions_load.rs:397-454 | load micro-step 3: into the register |
| MemoryScripts.OpLoad | bitcoin-script-riscv/src/riscv/instructions_load.rs:13-27 | the load script of any micro-step |
| MemoryScripts.ExecuteStep | bitcoin-script-riscv/src/riscv/instructions.rs:774-886 | the script of any instruction recomputes the specified trace or fails |
| MemoryScripts.VerifyExecution | bitcoin-script-riscv/src/riscv/instructions.rs:932-984 | accepts exactly when the recomputed trace is the committed one |
| MemoryScripts.Verify | bitcoin-script-riscv/src/riscv/instructions.rs:889-984 | from a trace record: accepts or rejects exactly as the specified outcome does, wherever that is specified |
| ScriptAgreement.MergeAgrees | bitcoin-script-riscv/src/riscv/instructions_store.rs:320-328 | in store micro-steps 2 and 6 the auxiliary registers have disjoint digits, so the sum without carry is the emulator's OR |
| ScriptAgreement.RotationAgrees | bitcoin-script-riscv/src/riscv/memory_alignment.rs:182-217 | masking and rotating is the emulator's masking and moving for every store, alignment and round |
| ScriptAgreement.Choice1Agrees | bitcoin-script-riscv/src/riscv/instructions_load.rs:29-245 | the first digit pick is the emulator's mask, move and extension for every load and alignment |
| ScriptAgreement.Choice2Agrees | bitcoin-script-riscv/src/riscv/instructions_load.rs:247-333 | the second digit pick is the emulator's mask, move and extension |
| ScriptAgreement.StoreAgrees | bitcoin-script-riscv/src/riscv/instructions_store.rs:13-446 | every store micro-step of the emulator is recomputed: same address, value, program counter and micro-step |
| ScriptAgreement.LoadAgrees | bitcoin-script-riscv/src/riscv/instructions_load.rs:13-454 | every load micro-step of the emulator is recomputed, likewise |
| ScriptAgreement.OwnStepIsDecided | bitcoin-script-riscv/src/riscv/instructions.rs:774-886 | the digit script of the emulator's own step is specified exactly if its immediate is encodable and a multiplication stays in the tables; divisions always do |
| ScriptAgreement.StepAgrees | bitcoin-script-riscv/src/riscv/instructions.rs:774-886 | the script of every step of every instruction accepts the emulator's trace if and only if its operands stay in the tables and the step is neither a halt with a non-zero exit code nor a signed division with a zero quotient of opposite signs |
| ScriptAgreement.RunsAreAccepted | bitcoin-script-riscv/src/riscv/instructions.rs:932-984 | the same for every step of every run that stays in code, with the auxiliary-register invariant carried along the run |
| ScriptAgreement.VerifyStep | bitcoin-script-riscv/src/riscv/instructions.rs:889-984 | running the digit script on an executed step whose operands stay in the tables accepts it exactly if it is none of the refused steps |
| UniqueResults.AcceptedPairIsTrue | bitcoin-script-riscv/src/riscv/script_utils.rs:1078-1359 | of the quotients and remainders that fit a word, a division's check accepts the emulator's only |
| UniqueResults.AcceptedUsesItsReads | bitcoin-script-riscv/src/riscv/instructions.rs:889-984 | a script that accepts has checked the access kind of every read whose value it uses |
| UniqueResults.OneResult | bitcoin-script-riscv/src/riscv/instructions.rs:932-984 | if two accepted records agree on the program counter and on the value of every read that one of them marks as used, they write the same, overflowing divisions apart |
| UniqueResults.SameSources | bitcoin-script-riscv/src/riscv/instructions.rs:932-984 | they also have the same access kinds, and read every used value at the same address |
| UniqueResults.AcceptedIsAcceptable | bitcoin-script-riscv/src/riscv/instructions.rs:932-984 | if a script accepts any fitting result from the values of an executed step, it accepts the step itself |
| Challenges.RomIsConstant | emulator/src/loader/program.rs:375-384 | a word outside writable sections keeps its loaded value along every execution |
| Challenges.InvalidAddressesWin | emulator/src/decision/challenge.rs:319-349 | addresses the tables reject make the address script succeed |
| Challenges.PcChallengeDecides | emulator/src/decision/challenge.rs:352-378 | the entry-point or program-counter script succeeds exactly when the claimed program counter is not that of the state the step starts in, whether or not the step then fails |
| Challenges.ChunkOfCode | emulator/src/decision/challenge.rs:385-407 | the chosen chunk holds the word at the program counter at the looked-up index |
| Challenges.WrongOpcodeLoses | emulator/src/decision/challenge.rs:381-407 | an opcode unlike the verifier's makes the opcode script succeed |
| Challenges.UnwrittenIsInitial | emulator/src/loader/program.rs:370-384 | along every execution a word that carries the initial marker has its loaded value |
| Challenges.WrongDataLoses | emulator/src/decision/challenge.rs:405-439 | a wrong value at a non-zero address that the verifier reads too leads to a data challenge that succeeds: of input for an input word never written, of constants for a constant |
| Challenges.ChosenChallengeWins | emulator/src/decision/challenge.rs:260-439 | the chosen challenge wins its script, unless hash, addresses, program counter and opcode are right and no word the verifier reads with its loaded value is contradicted |
| Challenges.FailedEntry | emulator/src/executor/fetcher.rs:142-177 | a failing step, first or later, is recorded by its number alone, and hashed as thirteen zero bytes |
| Challenges.FailedStepChallenge | emulator/src/decision/challenge.rs:306-439 | if the verifier's own step fails, its challenge wins if and only if the prover's hash, an address or the program counter is wrong; for a record with the empty program counter, if and only if the opcode or then the data contradict the loaded program |
| Challenges.FailedStepCanLose | emulator/src/decision/challenge.rs:352-378 | a loaded program whose first step fails, and a made-up record of it whose challenge loses |
| HashScripts.StepDigits | bitcoin-script-riscv/src/riscv/challenges.rs:207-230 | the pushed digits of a step's written half are those of its thirteen bytes |
| HashScripts.TraceHashChallenge | bitcoin-script-riscv/src/riscv/challenges.rs:207-266 | hashing the digits again succeeds exactly when the committed hash is not that of the step |
| HashScripts.EntryPointChallenge | bitcoin-script-riscv/src/riscv/challenges.rs:112-127 | succeeds exactly in step 1 with another program counter or micro-step |
| HashScripts.ProgramCounterChallenge | bitcoin-script-riscv/src/riscv/challenges.rs:135-179 | succeeds exactly when the program counter differs and the previous step hashes to the agreed hash |
| ChallengeScripts.AddressNotInSections | bitcoin-script-riscv/src/riscv/script_utils.rs:1421-1445 | two comparisons a range decide whether no listed word starts at the address |
| ChallengeScripts.WitnessDigits | definitions/src/memory.rs:57-60 | the half-digit tables read the three access kinds out of the committed byte |
| ChallengeScripts.IsInvalidRead | bitcoin-script-riscv/src/riscv/challenges.rs:271-309 | the read part of the address script |
| ChallengeScripts.IsInvalidWrite | bitcoin-script-riscv/src/riscv/challenges.rs:311-344 | the write part of the address script |
| ChallengeScripts.IsInvalidPc | bitcoin-script-riscv/src/riscv/challenges.rs:346-358 | the program-counter part of the address script |
| ChallengeScripts.AddressesSectionsChallenge | bitcoin-script-riscv/src/riscv/challenges.rs:360-419 | succeeds exactly when one of the four addresses is invalid |
| ChallengeScripts.OpcodeChallenge | bitcoin-script-riscv/src/riscv/challenges.rs:421-458 | subtraction, shift and table pick find the program counter's word; succeeds exactly when it differs from the committed opcode |
| ChallengeScripts.ValueChallenge | bitcoin-script-riscv/src/riscv/challenges.rs:31-107 | succeeds exactly on a never-written read of the address with another value |
| ChallengeScripts.ExecuteChallenge | bitcoin-script-riscv/src/riscv/challenges.rs:463-558 | each challenge script succeeds exactly on its win condition |
| DisputeOutcome.ExecuteAround | emulator/src/decision/challenge.rs:302-315 | re-executing from the nearest checkpoint yields the run's own records around the isolated step |
| DisputeOutcome.WrongHashMeansWrongStep | definitions/src/trace.rs:221-231 | hashes that agree before a step and differ after it mean that a validated trace is not the verifier's |
| DisputeOutcome.FinishedRunExecutes | emulator/src/executor/fetcher.rs:78-214 | a finished run executes each of its steps, the last one exactly if it halted or met the limit, and otherwise that one fails |
| DisputeOutcome.SameValuesSameStep | bitcoin-script-riscv/src/riscv/instructions.rs:932-984 | an accepted trace of the values the verifier uses is the verifier's step, overflowing divisions apart |
| DisputeOutcome.WrongStepIsCaught | emulator/src/decision/challenge.rs:260-439 | a prover with a wrong hash for the isolated step loses the chosen challenge, or fails the step's digit script, or leaves its tables, or hides behind an overflowing division, or misreported a value that a record marks as used and about which there is no challenge; only the steps before must be in decodable code |
| DisputeOutcome.ListedPcIsFetched | emulator/src/decision/challenge.rs:319-336 | an executed step whose program counter the code table lists has a decoded instruction, in every state of the run |
| DisputeOutcome.DisputeCatchesProver | emulator/src/decision/challenge.rs:55-439 | the same for every adaptive prover, from the first round to the final challenge, at every step up to the start of the search; before the start the committed hash is always wrong; where the verifier's own step fails, the exact condition of its challenge |
| HonestProver.ScriptMeetsTables | bitcoin-script-riscv/src/riscv/challenges.rs:271-358 | of accesses marked as used, and of program counters, the address script and the range tables call the same ones invalid; of unused ones the script asks for alignment only |
| HonestProver.AddressesAreDecided | emulator/src/decision/challenge.rs:319-349 | for every record: the verifier accepts its addresses exactly if each used access is possible in memory and the program counter is code; the script succeeds exactly if not, or an unused access has an unaligned address |
| HonestProver.EmptyTablesHaveNoScript | bitcoin-script-riscv/src/riscv/script_utils.rs:1421-1445 | an address challenge wins only if every table lists a word |
| HonestProver.HonestAddressesLoseOnlyOutsideCode | emulator/src/decision/challenge.rs:319-349 | the address script succeeds against the true record of an executed step exactly if its program counter is outside the listed code |
| HonestProver.UnwrittenReadIsLoaded | emulator/src/loader/program.rs:370-384 | a read of memory that carries the initial marker reports the loaded value |
| HonestProver.HonestRecordIsSafe | bitcoin-script-riscv/src/riscv/challenges.rs:1-558 | no challenge wins against the true record and hashes of an executed step in code, whatever true words, values and tables of the program it is about; one of the program counter needs a collision of the hash function |
| HonestProver.HonestRecordIsNotChallenged | emulator/src/decision/challenge.rs:260-439 | against that record the verifier chooses no challenge |
| HonestProver.NumberNamesChunk | emulator/src/decision/challenge.rs:385-407 | the chunk numbers of two opcode challenges are equal exactly if their base addresses and words are, grow with the program counter, and stay below the count of chunks |
| HonestProver.DataChallengeFits | emulator/src/decision/challenge.rs:405-439 | a challenge of constants is about a word outside the input that no step can write, with the same value in every state; one of input about an input word; both about the first conflicting read |
| HonestProver.ChosenIsGenuine | emulator/src/decision/challenge.rs:260-439 | whatever record the prover reveals, the challenge the verifier chooses is about that record and the committed hashes, says only true things of the program, and is of the kind for the first step exactly there; none is chosen only if hash, addresses, program counter and opcode are right |
| HonestProver.HonestPair | emulator/src/decision/challenge.rs:213-258 | whatever the verifier decides in the rounds, the hashes an honest prover has committed for the isolated step and its successor are those of its execution |
| HonestProver.HonestProverIsSafe | emulator/src/decision/challenge.rs:152-439 | a prover that answers with the hashes of its execution and reveals its record of an isolated step in code loses no challenge, collisions apart, and its script accepts exactly if operands fit the tables and the step is none of the refused ones |
| Parties.GetExecutionResult | emulator/src/loader/program_definition.rs:122-142 | the result, last step and hash of the whole run with its checkpoints; none exactly on an abort or at the step limit |
| Parties.CheckExecution | emulator/src/decision/challenge.rs:87-149 | the verifier challenges exactly if its own run does not end with exit code zero, whatever is claimed, from one step before the earlier end |
| Parties.GetTraceStep | emulator/src/loader/program_definition.rs:181-196 | executing again from the nearest checkpoint gives what the run from that saved state records of the step, and nothing exactly when the step is out of range, the checkpoint is missing, or that run never stops or stops before the step |
| Parties.RecordOfStep | emulator/src/loader/program_definition.rs:181-196 | in a finished run that is the run's own record, or a default record if the step is itself a checkpoint, the last one too if the run halted or failed there; a later step has none |
| Parties.ProverFinalTrace | emulator/src/decision/challenge.rs:188-211 | the prover's log moves to the step that the final digit names and keeps the record executed again; without a record it is unchanged |
| Parties.CheckpointStepLoses | emulator/src/loader/program_definition.rs:181-196 | an entirely honest prover whose isolated step ends at a checkpoint loses the hash challenge, unless that step is empty or the hash collides |

## Left out

- Command line, logging, YAML and ELF parsing, JSON files, checkpoint files on disk: input and output only. A list of sections and a map of saved states take their place.
- Sections whose start or size is no multiple of four bytes, or that reach the end of the address space.
- Stack positions, alternate stack, Bitcoin Script encoding, one-time signatures and the hash script: external libraries. The routines work on named sequences of digits.
- Fault injection (`FailConfiguration`) and forced challenges and conditions.
- Instruction decoding, in the emulator and on digits: the decoder is a parameter, and the scripts get register operands and immediates as decoded digits.
- Arities that are no power of two, and the floating-point logarithms: replaced by exact powers of two.
- An approximate step count of zero, for which the constructor takes the logarithm of zero.
- Loading input data into a section, and section names; whether an address is input is a parameter of the decision tree.
- `shift_value_with_tables` and its dynamic tables, which only tests use.
- The low bit of an indirect jump target is kept, as in the code.
- Challenges of reads from writable memory, which the code does not have; challenges of input data on words the program has overwritten; base addresses from `get_chunks`.
- The halt challenge script, whose opcode check the code leaves open.
- Arithmetic on addresses wraps around as in a release build.
- Printing calls of the program; every call other than a halt is a no-operation.
- The standard library's binary search is modelled as its loop; for equal start addresses it may stop at another of them.
- What a digit script computes once a lookup leaves its table: it then reads other stack items. `MemoryScripts.Decided` is the condition under which it is specified.
- Multiplication.Multiply: is specified only where every column with its carry is inside the 128-entry tables.
- SignedProduct.Mulh: is specified only where the columns of the magnitudes stay inside the tables.
- Division.DivCheck: says nothing when the product of divisor and quotient leaves the tables after the remainder test has passed.
- Division.DivisionAndRemainder: has the same table premise for a divisor other than zero.
- Division.Divu: has the same table premise for a divisor other than zero.
- Division.Remu: has the same table premise for a divisor other than zero.
- SignedDivision.DivisionAndRemainderSigned: has the same table premise for the magnitudes.
- SignedDivision.DivScript: has the same table premise for the magnitudes.
- SignedDivision.RemScript: has the same table premise for the magnitudes.
- Scripts.OpArithmetic: a multiplication's operands, or a division's divisor and quotient, must stay inside the tables.
- Scripts.ArithmeticWord: operands of a multiplication must stay inside the tables.
- Scripts.DivisionWord: divisor and quotient must stay inside the tables.
- MemoryScripts.ExecuteStep: only where the script is specified, as above.
- MemoryScripts.VerifyExecution: only where the script is specified, as above.
- MemoryScripts.Verify: only where the script is specified, as above.
- Challenges.ChosenChallengeWins: about data it claims only what concerns a word that still has its loaded value, at a non-zero address that the verifier reads itself.
- DisputeOutcome.WrongStepIsCaught: a misreported value, of a read that is used, is one of its outcomes, because the code has no challenge for most of them; so is a step whose script leaves its tables. A run that has left decodable code before the isolated step is not covered.
- A prover's record on which the verifier's process itself breaks: an access code 3 in the witness byte, whose conversion panics, cannot be represented, and a division without its witness, which the code unwraps, is taken to have the witness 0.
- Dispute.VerifierChallengeLog.CheckExecution: is the log alone; the decision to challenge is `Parties.CheckExecution`.
- Dispute.ProverChallengeLog.FinalTrace: takes the record as a function of the step; `Parties.ProverFinalTrace` puts in the record executed again.
- Shifts.ShiftNumber: for amounts above 32 the script reads below its own stack items.
