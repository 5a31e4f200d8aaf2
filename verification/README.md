# Verified model of the Lido tooling: gas profiler, key registry client, issuance and codecs

This project models the parts of the Lido repository that compute something, and proves what they
are for. `dafny verify dfyconfig.toml` checks all of it.

Inductions are explicit calls: `{:induction false}` keeps Dafny's automatic hypothesis out of every
proof.

**The gas profiler** (`gasprofile/gasprofile.js`) reads a flat EVM trace and reports gas by source
line, by contract and as "synthetic" gas. Its trace loop keeps an explicit call stack: it pops
frames when depth falls, pushes one when a call or create opens a frame, and charges either an
opcode's own cost or, on return, the cost of the whole call.

* `Trace` holds the trace, the cost of an opcode, the target of a call, and the look-ahead for the
  address of a created contract.
* `CallTree` defines the call tree of a trace by recursion on the trace, with no stack: a list of
  events Step, Enter and Leave. It proves that this tree runs every log exactly once, in order, in
  the frame that a backward scan for the last shallower log finds.
* `Ledger` gives every event its charge and defines the printed tables as folds over events.
* `Report` and `Profiling` hold the profiler as the source has it: class `Profiler` with its
  two dictionaries and its call stack, updated log by log. `Profiler.Run` is proved to compute the
  tables of the call tree for every trace and every filter, and to throw exactly on the traces that
  are not accepted. The loop invariant is `Progress`: the events so far, continued from the stack,
  are the whole call tree.
* `Figures` turns the call tree into plain sums over the logs: which traces are accepted, which
  events and charges there are, and every total and balance, from nothing but the frame of each log
  and the log at which a call returns. `Printed` reads all printed figures off the logs in this way.
  `Order` gives the order in which the logs are recorded, and `Truncation` with it the exact
  condition under which a printed line figure is the true sum.
* `Conservation` proves the law that relates lines, synthetic gas and lost gas to the totals of
  contracts, exactly, for every trace, also one that ends inside a call. `Losses` says which calls'
  cost is reported nowhere. `Numeric` says when the 32-bit line table holds the true sums. `Filter`
  decomposes the `only-address` option.

**The decoders** of the same file (`SourceMap`, `PcSweep`, `LineOffsets`, over `Text` and `Hex`) are
proved to undo every legal encoder: any compression of a source map that Solidity's documentation
("Source Mappings") allows, and any assembly of instructions with PUSH immediates (Appendix H of the
Ethereum Yellow Paper). `Decoding` puts them together: the lookup at the offset of the k-th
instruction finds the k-th entry if there is one, whatever data follows the code, and the gas of the
instruction goes to the line that the entry's offset lies in. `SourceReport` takes this to the
printed figure: a line shows the gas of exactly the logs whose instruction was compiled from it.

**The smaller cores.** `SigningKeys`: the client that removes a range of keys from the highest index
down, against the contract that fills each hole with the last key. `Issuance`: the vesting batches
and their running supply. `Grantees`: the replay of an access-control log. `Messages`, `KeyBatch`,
`Signatures`: fixed-width hex messages, key batches, and the compact signatures of EIP-2098.

Where the code falls short of what it is for, there is an exact condition and a concrete input that
the profiler, or the library, gets through:

* The comment at `gasprofile/gasprofile.js:209-211` takes the previous log to be the last log of the
  popped frame, which it is if and only if it is one level below the call
  (`Conservation.PreviousLogIsInFrame`). When depth drops through several frames at once it is the
  innermost frame's for all of them. `Conservation.BooksBalanceIff` says when the totals still account
  for all charges, `Conservation.GasConservation` by how much they do not, and
  `Conservation.DropThroughTwoMiscounts` is a trace of four logs that is off by 10.
* `| 0` truncates a line's sum to 32 bits (ToInt32, section 7.1.6 of ECMA-262), but not the last
  addition. `Truncation.LineIsExactIff` is the condition; `Numeric.TruncatedTrace` a trace of two logs
  whose line prints 0.
* The cost of a call is reported nowhere when the instruction that makes it is synthetic, or else has
  no known line of an unskipped file (`gasprofile/gasprofile.js:225-250`). `Losses.NoCallIsLost` is
  the condition, `Losses.LostCallsByLog` the amount, and `Losses.SyntheticCallIsLost` a trace of three
  logs that loses a call of 40 gas.
* The message "each pubkey must be 48 bytes long" at `lib/src/node-operators-registry.js:34-36`
  guards the total length only. `KeyBatch.SubmitsWholeKeys` is the condition under which it means
  what it says; `KeyBatch.GuardMissesUnevenKeys` an input.

`getAllGrantees` puts the role in lower case, but not the permission it compares it with
(`scripts/helpers/aragon.js:85-87`). It is not exported, and both of its callers pass the permission
in lower case (lines 33 and 69), so its result is right for every role they can name
(`Grantees.GranteesOfRole`); `Grantees.PermissionMustBeLowerCase` says for which permissions the
function taken alone would be.

## Model

| member | source | states |
|---|---|---|
| Profiling.Profiler.Run | gasprofile/gasprofile.js:195-280 | for every trace, entry frame and filter the loop either throws, exactly when the trace is not accepted, or ends with the tables of the recursive call tree: per contract the sum of all its frames, re-entrant ones included, the entry contract's total overwritten by its outermost frame, synthetic gas, 32-bit line gas, and lines marked as making calls; the contracts in the report are the entry contract and all callees |
| Profiling.Profiler.HandleLog | gasprofile/gasprofile.js:199-267 | one round keeps the invariant: events so far plus the continuation of the stack are the whole call tree, the tables report the events so far, and the stack height follows the depth of the log; it throws only on traces that are not accepted |
| Profiling.Profiler.PopReturned | gasprofile/gasprofile.js:207-221 | the pop loop ends; it never empties the stack unless depth falls below the entry frame, which is exactly when it throws; if it popped, the top is the frame of the log |
| Profiling.Profiler.PopCall | gasprofile/gasprofile.js:207-219 | one pop records exactly one Leave event: the frame total to the callee's contract, and the inclusive cost to the line the caller remembered, if the filter lets the caller through |
| Profiling.Profiler.ExecuteLog | gasprofile/gasprofile.js:223-267 | the rest of the loop body records exactly one Step or Enter event, pushes at most one frame, and fails only for a missing source-map entry or a rise by more than one |
| Profiling.Profiler.RunLog | gasprofile/gasprofile.js:244-267 | at a known place the log records one Step, or one Enter and one more frame; a rise by more than one throws |
| Profiling.Profiler.LocateLog | gasprofile/gasprofile.js:225-234 | the source, line and synthetic flag of a log are those of its frame's code, and a source met for the first time gets an empty table |
| Profiling.Profiler.PushCall | gasprofile/gasprofile.js:246-260 | the caller remembers its gas, source and line, the callee its first gas after the hold-back, and nothing else changes |
| Profiling.Profiler.ChargeStep | gasprofile/gasprofile.js:261-266 | an opcode's own cost goes to synthetic gas or its line, or nowhere if the filter blocks the frame |
| Profiling.Profiler.IncreaseLineGasCost | gasprofile/gasprofile.js:437-444 | the line table changes as a charge to the line's bucket says, and not at all for a missing source or line or a skipped file |
| Profiling.Profiler.GetContractWithAddr | gasprofile/gasprofile.js:446-455 | a contract met for the first time gets empty totals; a known one is left alone |
| Profiling.Profiler.GetSourceWithId | gasprofile/gasprofile.js:513-521 | a source met for the first time gets an empty table; a known one is left alone |
| Profiling.Profiler.Begin | gasprofile/gasprofile.js:192-196 | the stack before the loop is the entry frame alone, and the whole call tree is still to come |
| Profiling.Profiler.Finish | gasprofile/gasprofile.js:278-280 | only the entry contract's total is overwritten, with first gas minus last gas plus last cost |
| Conservation.EntryTotalByName | gasprofile/gasprofile.js:278-280 | that total is first gas minus last gas, and the last cost unless the last opcode halts at a negative cost |
| Profiling.ProgressAfterPop | gasprofile/gasprofile.js:207-219 | popping a frame consumes exactly its Leave event from what is still to happen |
| Profiling.ProgressAfterPush | gasprofile/gasprofile.js:246-260 | pushing a frame consumes exactly its Enter event, and the stack remembers what its return will need |
| Profiling.ProgressAfterStep | gasprofile/gasprofile.js:261-266 | running a log consumes exactly its Step event |
| Profiling.ProgressAtEnd | gasprofile/gasprofile.js:199-268 | a loop that got through has an accepted trace and has recorded all of its call tree |
| Profiling.KeepsAfter | gasprofile/gasprofile.js:207-266 | one event moves from what is still to happen to what the tables report, and no contract is forgotten |
| Profiling.UnresolvedIsRejected | gasprofile/gasprofile.js:373-374 | a log without a source-map entry makes the trace one that throws |
| Report.ReportEvent | gasprofile/gasprofile.js:212-218 | one more event keeps the tables equal to the folds over events, under any filter |
| CallTree.EachLogRunsOnceInItsFrame | gasprofile/gasprofile.js:199-268 | the call tree runs each log exactly once, in trace order, in the frame opened by the last earlier shallower log |
| CallTree.FrameExecuted | gasprofile/gasprofile.js:207-260 | the rest of a frame runs exactly the logs up to the first one below its depth |
| CallTree.RemainingAfterPop | gasprofile/gasprofile.js:207-219 | the continuation of a stack whose top has ended starts with the return of the top frame |
| CallTree.RemainingAfterPush | gasprofile/gasprofile.js:246-260 | the continuation at an opening log is Enter followed by the continuation of the taller stack |
| CallTree.CreatedAddressIsReturned | gasprofile/gasprofile.js:412-426 | with single drops the created contract's address is on top of the stack of the very log at which its frame is popped |
| Figures.TreeSumIsLogSum | gasprofile/gasprofile.js:199-268 | any sum over the events of the call tree is a sum over the logs: each log has one event of its own, and one more for its return if it makes a call that returns |
| Figures.EventsOfTrace | gasprofile/gasprofile.js:207-260 | the events are exactly these; in particular the returns are those of the opening logs whose frame ends, with the first log of the frame, its last, and the log it returns to |
| Figures.AcceptsByLog | gasprofile/gasprofile.js:221-248 | the traces that do not throw are exactly those with such depths in which every log, in its frame, has a source-map entry or code without tables |
| Figures.AcceptsByName | gasprofile/gasprofile.js:207-248 | the same from the logs and tables alone: the depths, the opcodes and stacks where depth rises, and the table entries of every log |
| Figures.TotalsByLog | gasprofile/gasprofile.js:207-212 | a contract's frame totals are the sum, over the opening logs whose frame runs there and returns, of first gas minus last gas plus last cost |
| Figures.FrameTotalByName | gasprofile/gasprofile.js:209-212 | a returned frame adds first gas minus last gas, and its last cost unless the last opcode is RETURN, REVERT or STOP at a negative cost |
| Figures.ChargesOfTrace | gasprofile/gasprofile.js:214-266 | the recorded charges are exactly those of the logs that the filter lets through: the gas drop over a returned call, or an opcode's own cost |
| Figures.BalanceByLog | gasprofile/gasprofile.js:214-266 | every account (a line, synthetic gas of a contract, lost gas) is the sum of these charges over the logs, under any filter |
| Printed.PrintedByLog | gasprofile/gasprofile.js:195-280 | every printed figure from the logs alone: contract totals, synthetic gas, line gas modulo 2^32, and the lines marked as making calls |
| Printed.PrintedSynthetic | gasprofile/gasprofile.js:261-263 | a contract's printed synthetic gas is the cost of exactly the logs that open no frame, run there, pass the filter and are looked up as synthetic, in runtime and construction code alike |
| Order.TraceInOrder | gasprofile/gasprofile.js:199-268 | the events are recorded in exactly this order: a log when it runs, a call when it returns, of several calls that return at once the innermost first; none is missing |
| Truncation.LineIsExactIff | gasprofile/gasprofile.js:437-444 | for every trace and filter, a printed line figure is the sum over the logs if and only if that sum less the charge recorded last for the line fits in 32 signed bits |
| Truncation.SomeLogIsLast | gasprofile/gasprofile.js:437-444 | every line that is charged has such a last charge |
| Truncation.ReportedLine | gasprofile/gasprofile.js:437-444 | the lines in the report are exactly those that some log is charged to |
| Trace.GetCallTarget | gasprofile/gasprofile.js:401-435 | the search loop finds the first later log of the same depth and reads the created address from it; calls read the second stack word; other opcodes have no target |
| Trace.GasCostByName | gasprofile/gasprofile.js:384-399 | whatever log comes next: RETURN, REVERT and STOP at a negative cost cost 0, each of the four calls before a log of its own depth the drop in gas, everything else its reported cost |
| Trace.CallTargetByName | gasprofile/gasprofile.js:402-410 | each of the four calls targets the word below the gas on its stack, as no construction, and has no target on a stack of fewer than two words |
| Trace.CreateTargetByName | gasprofile/gasprofile.js:411-427 | both creates target the top word of the first later log at their own depth, as a construction, and nothing if there is no such log or word |
| Trace.NoTargetByName | gasprofile/gasprofile.js:428-433 | no other opcode has a target |
| CallTree.OpensByName | gasprofile/gasprofile.js:244-248 | a frame opens if and only if depth rises behind one of these six opcodes and its target is there |
| CallTree.CalleeByName | gasprofile/gasprofile.js:253-256 | the frame that a call opens runs at the word below the gas, as a call |
| Trace.CreateLookahead | gasprofile/gasprofile.js:412-426 | for every trace the look-ahead stops at the log that ends the created frame if and only if that frame returns to its creator's depth or never returns |
| Trace.CreateLookaheadSingleDrops | gasprofile/gasprofile.js:412-419 | with single drops it always does, and all logs in between are deeper |
| Conservation.GasConservation | gasprofile/gasprofile.js:207-280 | for every trace: lines plus synthetic plus unattributed gas, plus the gas that calls which never return took with them, equals the entry total plus all frame totals plus an explicit drift, multi-frame returns included |
| Conservation.BooksBalanceIff | gasprofile/gasprofile.js:207-280 | the totals account for all charges if and only if the drift equals what went into calls that never return |
| Conservation.PreviousLogIsInFrame | gasprofile/gasprofile.js:209-212 | the log before a return belongs to the popped frame if and only if it is one level below the call |
| Conservation.FrameConserves | gasprofile/gasprofile.js:207-266 | per frame, what is charged while it runs less the totals below it telescopes to first gas minus last gas plus last cost, less what never returns, up to drift |
| Conservation.CallReturns | gasprofile/gasprofile.js:207-219 | when the trace ends in the entry frame every call returns |
| Conservation.AllReturned | gasprofile/gasprofile.js:207-219 | then no gas is with a call that never returns |
| Conservation.SteadyMeans | gasprofile/gasprofile.js:384-399 | costs equal gas drops for frameless calls whatever the client reports, and for halts with negative cost; for other opcodes exactly when the reported cost is the drop |
| Conservation.SteadyHasNoDrift | gasprofile/gasprofile.js:207-266 | no drift with single drops and costs that are drops in gas |
| Conservation.SteadyTraceConserves | gasprofile/gasprofile.js:207-280 | on such traces every unit charged is in the entry total or a frame total, and the other way round |
| Conservation.DropThroughTwoMiscounts | gasprofile/gasprofile.js:209-212 | a trace that drops through two frames, and that the profiler gets through when no address has a known source, is off by 10 |
| Ledger.ChargesTotal | gasprofile/gasprofile.js:214-217 | the charges add up to what the events cost: none is missing, none counted twice |
| Ledger.BucketsPartition | gasprofile/gasprofile.js:261-266 | every charge is in exactly one of lines, synthetic and unattributed |
| Ledger.SyntheticIff | gasprofile/gasprofile.js:261-266 | an opcode's own cost is synthetic gas if and only if the lookup says synthetic |
| Losses.NoCallIsLost | gasprofile/gasprofile.js:214-217 | every returned call's cost is in a line if and only if every call that returns is made, in its frame, from a known line of an unskipped file |
| Losses.LostCallsByLog | gasprofile/gasprofile.js:214-217 | the gas lost is the sum of the drops over exactly the other returned calls |
| Losses.BucketOfCall | gasprofile/gasprofile.js:378-381 | a call is unattributed exactly when its site is unknown, and a synthetic instruction's site is never known |
| Losses.SyntheticCallIsLost | gasprofile/gasprofile.js:225-250 | the profiler gets through a trace in which a synthetic call of 40 gas is in no line and in no synthetic total |
| Numeric.ToInt32OfCongruent | gasprofile/gasprofile.js:439 | ToInt32 depends on the value modulo 2^32 only, keeps it, and is the identity exactly on 32-bit values |
| Numeric.StoredIsCongruent | gasprofile/gasprofile.js:437-444 | for every list of charges, a stored line figure is the true sum modulo 2^32 |
| Numeric.StoredIsExactIff | gasprofile/gasprofile.js:437-444 | it is the true sum if and only if the sum before the line's last charge fits in 32 signed bits |
| Numeric.TruncatedTrace | gasprofile/gasprofile.js:439 | the profiler gets through a trace of two opcodes of 2^31 gas on one line and stores 0 for it |
| Numeric.FrameBound | gasprofile/gasprofile.js:207-266 | per frame, charges are at most what it consumes times the number of depth levels below it plus one |
| Numeric.StoredIsExactBelowBound | gasprofile/gasprofile.js:199-268 | if entry gas times the number of levels is below 2^31 every line figure is the true sum, under any filter |
| Filter.FilterKeepsFramesAt | gasprofile/gasprofile.js:214-217 | the charges under a filter are exactly those of the frames at that address |
| Filter.FilteredReportsAddUp | gasprofile/gasprofile.js:261-266 | over any list that names every charged address once, the true sums of the filtered runs add up to the unfiltered one, account by account |
| Filter.FilteredLinesAddUp | gasprofile/gasprofile.js:437-444 | the stored line figures of the filtered runs add up to the stored unfiltered figure modulo 2^32 |
| Filter.FilteredMarksAddUp | gasprofile/gasprofile.js:440-442 | a line is marked as making calls if and only if the filtered run of some address marks it |
| Filter.MetByLog | gasprofile/gasprofile.js:253-260 | the contracts in the report are the entry contract and whatever some log calls or creates |
| Filter.ReportedContractsAddUp | gasprofile/gasprofile.js:287-289 | one filtered run per contract in the report, in any order, adds up to the unfiltered run: true sums exactly, stored line figures modulo 2^32 |
| Filter.FilteredReport | gasprofile/gasprofile.js:165-167 | of two runs with and without the filter: contract totals agree, synthetic gas agrees at the address and is nought elsewhere, lines and call marks are those of the frames at the address alone |
| Filter.NoFilterSelectsAll | gasprofile/gasprofile.js:165-167 | without the option nothing is filtered |
| SourceMap.ParseSourceMap | gasprofile/gasprofile.js:613-644 | the loop with its four remembered fields computes, per section, the last field given at or before it |
| SourceMap.LastGivenIsLast | gasprofile/gasprofile.js:618-640 | a field's value is v if and only if some section at or before it gives v and no section in between gives the field |
| SourceMap.NeverGiven | gasprofile/gasprofile.js:614-640 | until a section gives it, a field is undefined, and as a number NaN |
| SourceMap.NumberByName | gasprofile/gasprofile.js:642 | digits with or without a minus sign are that number, and a text with any other character is NaN |
| Text.PlaceValue | gasprofile/gasprofile.js:642 | digits are read in base ten by place, leading zeros included |
| Text.JoinSplit | gasprofile/gasprofile.js:615-616 | splitting any text loses nothing and leaves no separator in a part |
| Text.SpaceCodes | gasprofile/gasprofile.js:615 | white space is exactly the characters that ECMA-262 lists |
| Text.TrimBlank | gasprofile/gasprofile.js:615 | of white space nothing is left |
| SourceMap.ExpandUndoesCompress | gasprofile/gasprofile.js:613-644 | for every list of entries and every legal compression of it, padded with white space, expansion returns exactly the entries |
| SourceMap.WrittenSections | gasprofile/gasprofile.js:615-616 | splitting the text recovers the sections and fields it was written from |
| SourceMap.NumberOfDecimal | gasprofile/gasprofile.js:642 | every integer's decimal text, negative ones included, is read back as that integer |
| PcSweep.BuildPcToInstructionMapping | gasprofile/gasprofile.js:590-610 | the loop ends on every text, and numbers the offsets it stops at |
| PcSweep.MappingNumbersStarts | gasprofile/gasprofile.js:590-610 | on any text the keys are exactly the visited offsets, strictly increasing, numbered 0 to n-1 |
| PcSweep.PushByName | gasprofile/gasprofile.js:599-603 | PUSH1 to PUSH32, the opcodes 0x60 to 0x7f, have as many immediate bytes as their names say, and no other opcode has any |
| PcSweep.SizeByParseInt | gasprofile/gasprofile.js:596-606 | at any two characters of any text the sweep moves as parseInt reads them, and by one where it reads no number |
| Hex.ParseHexPairIsParseInt | gasprofile/gasprofile.js:596-597 | on one and two characters the decoders' case distinction is parseInt of section 19.2.5 of ECMA-262 |
| Hex.HexDigitsByName | gasprofile/gasprofile.js:597 | the hex digits and their values, in either case |
| PcSweep.SweepUndoesAssemble | gasprofile/gasprofile.js:593-607 | over the text of any instruction list the sweep visits exactly the instruction offsets, also when the last immediate is cut off |
| PcSweep.MappingOfAssembled | gasprofile/gasprofile.js:590-610 | for any instruction list the keys are exactly the instruction start offsets, numbered in order |
| PcSweep.ImmediatesAreNoKeys | gasprofile/gasprofile.js:600-603 | no offset inside an immediate is a key |
| PcSweep.OffsetsAdjacent | gasprofile/gasprofile.js:600-606 | each instruction starts where the one before it ends |
| PcSweep.DisassembledAgain | gasprofile/gasprofile.js:590-610 | any bytes whatever are some instruction list, the last immediate possibly cut short |
| PcSweep.DataBehindCode | gasprofile/gasprofile.js:590-610 | code with data behind it is a longer instruction list |
| Hex.HexOfByteAt | gasprofile/gasprofile.js:596-597 | each byte sits at twice its offset in the hex text, where it can be read back |
| Decoding.LookupFindsEntry | gasprofile/gasprofile.js:363-382 | end to end: for any instruction list and any legal compression of its source map, the lookup at the k-th instruction's offset returns the k-th entry's offset, length and file, synthetic exactly for file -1, if there is a k-th entry, and throws otherwise, for runtime and construction code alike |
| Decoding.LookupThrowsElsewhere | gasprofile/gasprofile.js:372-373 | a program counter that is no instruction's offset throws |
| Decoding.NoTablesNoInfo | gasprofile/gasprofile.js:368-370 | without one of the two tables nothing is found, and nothing thrown |
| Decoding.LookupWithDataBehind | gasprofile/gasprofile.js:468-482 | the same when metadata, or the runtime code behind a constructor, follows the instructions |
| Decoding.LocateFindsLine | gasprofile/gasprofile.js:225-234 | all decoders together: the gas of the k-th instruction goes to the file of the k-th entry, and there to the line numbered by the newlines before the entry's offset, to no line in a skipped or empty file, and to synthetic gas for file -1 |
| SourceReport.BucketIsLine | gasprofile/gasprofile.js:225-234 | gas goes to a line of a file if and only if the instruction that uses it has an entry for that line |
| SourceReport.PrintedSourceLine | gasprofile/gasprofile.js:437-444 | what is printed for a line is, modulo 2^32, the gas of exactly the logs whose instruction the compiler maps to it, whatever the compression of the source maps |
| SourceReport.PrintedSourceLineIsExact | gasprofile/gasprofile.js:437-444 | and it is that gas if and only if all of it but the last charge fits in 32 signed bits |
| SourceReport.PrintedSyntheticGas | gasprofile/gasprofile.js:261-263 | a contract's printed synthetic gas is the cost of exactly the logs at it, opening no frame and passing the filter, whose instruction's entry has file -1, for runtime and construction code alike |
| LineOffsets.BuildLineOffsets | gasprofile/gasprofile.js:581-588 | the mapped accumulator computes the running start of each line |
| LineOffsets.LineTable | gasprofile/gasprofile.js:581-588 | the table starts at 0, has one entry more than there are newlines, increases strictly, and each later entry follows a newline |
| LineOffsets.LineOfPosition | gasprofile/gasprofile.js:232-234 | a position lies in line k if and only if k newlines come before it |
| SigningKeys.NodeOperatorsRegistry.RemoveSigningKeyOperatorBH | contracts/0.4.24/nos/NodeOperatorsRegistry.sol:303-306 | succeeds exactly for the operator's own address and an existing unused key; otherwise changes nothing |
| SigningKeys.RemovedLayout | contracts/0.4.24/nos/NodeOperatorsRegistry.sol:611-636 | swap-with-last removal keeps the keys below and rotates the keys above the removed one |
| SigningKeys.RemoveSigningKeys | lib/src/node-operators-registry.js:54-74 | for every range: it fails without a transaction if no operator is paid at the sender's address, up to letter case; otherwise, on the first such operator: which removals happened, how many transactions, and exactly when the call fails; on success one result per key, highest first; other operators are untouched |
| SigningKeys.FoundOperatorIsFirst | lib/src/node-operators-registry.js:58 | the operator found is the first one paid at the address, up to letter case, and none is found only if there is none |
| SigningKeys.AddressEqualIff | lib/src/utils.js:14-16 | two addresses are equal if and only if they are as long, and at each place have the same character or the same letter in two cases |
| Text.LowerMeans | scripts/helpers/aragon.js:99-101 | lower case leaves no capital, and changes nothing but case |
| SigningKeys.RangeOutcome | lib/src/node-operators-registry.js:64-73 | for every range that ends at an existing unused key: its unused keys are gone as a multiset, one transaction each, the keys below have not moved, other operators are untouched, and the call succeeds exactly if no key of the range was used |
| SigningKeys.NoRangeOutcome | lib/src/node-operators-registry.js:66-71 | a range that ends beyond the last key or among the used ones removes nothing and fails; an empty one removes nothing and succeeds |
| SigningKeys.RemovedDownLayout | lib/src/node-operators-registry.js:66-71 | the exact outcome of a descending run: keys below the range unmoved, keys above it rotated once per removed key, staking limit cut to the range |
| SigningKeys.RemovedDownKeys | lib/src/node-operators-registry.js:66-71 | what is left is the original multiset minus exactly the keys originally in the range |
| SigningKeys.RotationIsCut | contracts/0.4.24/nos/NodeOperatorsRegistry.sol:620-627 | any number of rotations is one cut, full turns dropping out |
| Issuance.IssueTokens | scripts/multisig/10-issue-tokens.js:52-85 | batches are non-empty, at most 30 long, all full but the last, and concatenate to holders and amounts in order; batch i carries the sum of all amounts so far; the last one plus the unvested amount is the total supply |
| Issuance.SendBatch | scripts/deploy-lido-dao.js:354-373 | one round covers the next holders and carries the supply with them included |
| Issuance.TotalTxes | scripts/deploy-lido-dao.js:348 | the number of rounds is such that round i happens if and only if its start lies inside the list; none for an empty list |
| Issuance.BigSum | scripts/multisig/10-issue-tokens.js:88-94 | accumulating in place gives the initial amount plus the sum |
| Issuance.ExpectedTotalSupply | scripts/multisig/checks/dao-token.js:35-37 | the supply the deployment check expects is the one the issuer announces |
| Grantees.GetAllGrantees | scripts/helpers/aragon.js:82-97 | for any history the result has no duplicates and holds exactly the entities, in lower case, whose last SetPermission for the app and role allows them |
| Grantees.LastAllowsMeans | scripts/helpers/aragon.js:91-94 | that is: some event about the entity allows it and no later one is about it |
| Grantees.AppendingOneEvent | scripts/helpers/aragon.js:91-94 | one more event changes its own entity's membership at most, and nobody's if it is about another app or role |
| Grantees.FilteredDecides | scripts/helpers/aragon.js:85-87 | events of other apps, roles and kinds decide nothing |
| Grantees.GranteesOfRole | scripts/helpers/aragon.js:69-87 | for every role that the callers pass: the entities that the last event about them, for the app and role up to letter case, allows |
| Grantees.PermissionMustBeLowerCase | scripts/helpers/aragon.js:86 | taken alone, the function gives the role's grantees if and only if the permission is in lower case or the role has none |
| Grantees.UnnormalizedPermissionHasNoGrantees | scripts/helpers/aragon.js:86 | a permission with an upper-case letter has no grantees whatever the log says |
| Grantees.UpperCasePermissionLosesGrantee | scripts/helpers/aragon.js:86 | one event shows the difference |
| Messages.HexToBytes | test/0.8.9/helpers/signatures.js:41-44 | the loop reads two characters a byte and a last odd one alone, with parseInt's white space, sign, 0x and NaN cases |
| Messages.BytesByParseInt | test/0.8.9/helpers/signatures.js:42 | every byte of any text is parseInt of its two characters, or of a last odd one |
| Messages.BytesOfHex | test/0.8.9/helpers/signatures.js:41-44 | reading undoes writing: any bytes are recovered from their hex text |
| Messages.Strip0xMeans | test/0.6.12/helpers/index.js:31-33 | one 0x in front is taken off, and nothing else |
| Messages.EncodePauseData | test/0.8.9/helpers/signatures.js:20-23 | the message is the bytes of prefix and padded block number |
| Messages.EncodeAttestMessage | test/0.8.9/helpers/signatures.js:30-39 | the message is the bytes of the five fields in order |
| Messages.PauseDataDecodes | test/0.8.9/helpers/signatures.js:20-23 | for every 32-byte prefix and number below 2^256 the 64 bytes determine both |
| Messages.AttestMessageDecodes | test/0.8.9/helpers/signatures.js:30-39 | for all 32-byte words and numbers below 2^256 the 160 bytes determine every field |
| Messages.NumberSurvives | test/0.8.9/helpers/signatures.js:35-36 | a 256-bit number is written in 64 digits and read back from their bytes |
| Messages.HexDigitsFit | test/0.8.9/helpers/signatures.js:31 | a number has at most k hex digits if and only if it is below 16^k |
| KeyBatch.HexSplit | test/helpers/utils.js:17-27 | fails exactly when the length is no multiple of the piece length, else cuts the text into prefixed pieces |
| KeyBatch.SplitsIff | test/helpers/utils.js:18-20 | a text splits if and only if, without its prefix, it is a whole number of pieces long |
| KeyBatch.HexConcat | test/helpers/utils.js:9-15 | one prefix, then all items without theirs |
| KeyBatch.SplitUndoesFormat | apps/node-operators-registry/app/src/utils/helpers.js:18-44 | if every key passes the form's check, splitting the submitted text returns the same keys in order, prefixed |
| KeyBatch.SplitLosesNothing | test/helpers/utils.js:17-27 | for every text and length, the pieces are of equal length and join to the text |
| KeyBatch.HexConcatIsFormat | test/helpers/utils.js:9-15 | joining checked keys with hexConcat gives the form's text |
| KeyBatch.GuardMeansEveryLength | lib/src/node-operators-registry.js:34-40 | every part has the announced length if and only if the total-length guard passes and no part is too long |
| KeyBatch.SubmitsWholeKeys | lib/src/node-operators-registry.js:21-40 | a batch that passes all guards and has no over-long part is exactly a non-empty batch of whole keys with whole signatures |
| KeyBatch.SubmitsIff | lib/src/node-operators-registry.js:21-40 | a batch passes if and only if it is not empty, the counts agree, and what its long keys have beyond 96 digits its short keys lack, and the same for signatures and 192 |
| KeyBatch.SubmitsNothingLonger | lib/src/node-operators-registry.js:34-40 | a batch that passes and has nothing too short is exactly a non-empty batch of whole keys with whole signatures |
| KeyBatch.IsHexadecimalIff | apps/node-operators-registry/app/src/utils/helpers.js:36-44 | the form accepts a key exactly if it has the length, not zero, and every character is one of the 22 hex digits |
| KeyBatch.GuardMissesUnevenKeys | lib/src/node-operators-registry.js:34-36 | a batch with a short and a long key passes |
| Signatures.ToEip2098 | test/0.8.9/helpers/signatures.js:6-13 | the in-place change of the first byte computes the two words, or throws as the specification function says |
| Signatures.CompactRoundTrip | test/0.8.9/helpers/signatures.js:6-13 | it throws exactly when the top bit of s is set; otherwise the bit it sets is the parity of v mod 27 and no other byte changes, r and s are recoverable for every v, and v itself if and only if it is 27 or 28 |
| Signatures.WordIsRead | test/0.8.9/helpers/signatures.js:12 | the text of the second word is lower-case hex and is read back as its bytes |

## Left out

- Profiling.Profiler: contracts, sources and call-stack items are value rows of its dictionaries and its stack, not objects of their own. The source shares contract and source objects by reference and reaches them by their keys; that sharing is not captured, and call-stack items are never shared.
- Profiling.Profiler.Run: starts at the trace loop. Transaction lookup, dump files, the early exit for an entry address without code (lines 169-174), and the printed output, including sorting and colours, are not modelled; neither are `sourcesById`, `codeHexStr` and the names of contracts, which only the output uses.
- Profiling.Profiler.Run: the `only-address` text is taken to be a 40-digit address, since the filter compares it with 40-digit texts; a shorter text matches no frame in the source.
- Trace: stack words and addresses are the numbers they denote, because `normalizeAddress` prints a number in one way only.
- Lookup: `binarysearch.closest`, the source files, the skip list and the search for a contract's compiled code are parameters (`Env`); library and I/O code.
- Decoding.LocateFindsLine: takes the library's search to find the last line start up to an offset (`FindsLines`, which `LastUpTo` shows to be possible). Offsets count characters, as the profiler uses them; the compiler counts bytes, so the lines are those of the compiler in texts of one-byte characters.
- SourceMap.NumberOf: `Number` of a text is modelled for decimal integers; other spellings that JavaScript accepts (hex, exponents, inner white space) read as not-a-number here. No source map contains them.
- SigningKeys: of the registry contract only the removal of one key is modelled. Key indices are not cut to 64 bits, and loading and storing a key's bytes in storage slots is taken to work. The rest of that contract, and the other Solidity contracts, are left out.
- SigningKeys: letter case is ASCII, here and in Grantees.
- Grantees.GetAllGrantees: the order of `Object.keys` is that of first insertion; number-like keys and `__proto__`, which addresses are not, are treated like any other.
- Issuance: amounts are integers; reading them from text, call data and gas estimates are left out.
- KeyBatch.Submits: the checks on keys and signatures; finding the operator is the same search as in SigningKeys.FindOperator.
- KeyBatch: `pad` and `formatJsonData` would only add easy members; JSON parsing is a library's.
- Signatures: ECDSA and Keccak are libraries' work.
- `gasprofile/profile_gas_single_contract.js` repeats the decoders and sums without a call stack.
- Deployment scripts, web3, IPFS, the command line and the React apps: input, output and display.
