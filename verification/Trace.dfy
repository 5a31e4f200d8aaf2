/** The EVM trace the profiler consumes, and the two questions it asks of one log:
    what did the opcode cost, and does it open a call or create frame? */
module Trace {
  import opened Wrappers

  // A stack word and an address are both the number they denote: normalizeAddress reads the hex
  // text into a big number and prints it back in 40 digits, which is injective on numbers.
  type Address = nat

  datatype Op =
    | CALL | CALLCODE | DELEGATECALL | STATICCALL
    | CREATE | CREATE2
    | RETURN | REVERT | STOP
    | OTHER(name: string)

  datatype Log = Log(depth: int, gas: int, gasCost: int, op: Op, pc: nat, stack: seq<Address>)

  type Logs = seq<Log>

  predicate IsCall(op: Op) {
    op.CALL? || op.CALLCODE? || op.DELEGATECALL? || op.STATICCALL?
  }

  predicate IsCreate(op: Op) {
    op.CREATE? || op.CREATE2?
  }

  predicate IsHalt(op: Op) {
    op.RETURN? || op.REVERT? || op.STOP?
  }

  /** `structLogs[i]`: undefined outside the trace. */
  function LogAt(logs: Logs, i: int): Option<Log> {
    if 0 <= i < |logs| then Some(logs[i]) else None
  }

  function GetGasCost(log: Log, next: Option<Log>): int {
    if log.gasCost < 0 && IsHalt(log.op) then
      0
    else if next.Some? && next.value.depth == log.depth && IsCall(log.op) then
      log.gas - next.value.gas
    else
      log.gasCost
  }

  /** The cost of log `i` as the trace loop asks for it. */
  function CostAt(logs: Logs, i: nat): int
    requires i < |logs|
  {
    GetGasCost(logs[i], LogAt(logs, i + 1))
  }

  /** First index at or after `from` whose depth is below `depth`; the trace length if none is. */
  function FirstBelow(logs: Logs, from: nat, depth: int): (j: nat)
    requires from <= |logs|
    ensures from <= j <= |logs|
    ensures j < |logs| ==> logs[j].depth < depth
    decreases |logs| - from
  {
    if from == |logs| || logs[from].depth < depth then from else FirstBelow(logs, from + 1, depth)
  }

  /** First index at or after `from` at exactly `depth`; the trace length if there is none. */
  function NextAtDepth(logs: Logs, from: nat, depth: int): (j: nat)
    requires from <= |logs|
    ensures from <= j <= |logs|
    ensures j < |logs| ==> logs[j].depth == depth
    decreases |logs| - from
  {
    if from == |logs| || logs[from].depth == depth then from else NextAtDepth(logs, from + 1, depth)
  }

  datatype CallTarget = CallTarget(address: Option<Address>, isConstructionCall: bool)

  /** The `n`-th word from the top of a log's stack, counting from 1; undefined below the bottom. */
  function StackTop(log: Log, n: nat): Option<Address>
    requires n > 0
  {
    if n <= |log.stack| then Some(log.stack[|log.stack| - n]) else None
  }

  /** Where log `i` calls to. A created contract's address is only on the stack after the
      creation, so it is read from the next log of the same depth. */
  function CallTargetOf(logs: Logs, i: nat): CallTarget
    requires i < |logs|
  {
    if IsCall(logs[i].op) then
      CallTarget(StackTop(logs[i], 2), false)
    else if IsCreate(logs[i].op) then
      var j := NextAtDepth(logs, i + 1, logs[i].depth);
      CallTarget(if j < |logs| then StackTop(logs[j], 1) else None, true)
    else
      CallTarget(None, false)
  }

  method GetCallTarget(log: Log, iLog: nat, structLogs: Logs) returns (target: CallTarget)
    requires iLog < |structLogs| && structLogs[iLog] == log
    ensures target == CallTargetOf(structLogs, iLog)
  {
    match log.op {
      case CALL | CALLCODE | DELEGATECALL | STATICCALL =>
        target := CallTarget(StackTop(log, 2), false);
      case CREATE | CREATE2 =>
        var nextLogSameDepth: Option<Log> := None;
        var i := iLog + 1;
        ghost var found := i;
        while i < |structLogs| && nextLogSameDepth.None?
          invariant iLog < i <= |structLogs|
          invariant found <= |structLogs|
          invariant nextLogSameDepth.None? ==> found == i
          invariant nextLogSameDepth.Some? ==>
            found == i - 1 && structLogs[found] == nextLogSameDepth.value && structLogs[found].depth == log.depth
          invariant NextAtDepth(structLogs, iLog + 1, log.depth) == NextAtDepth(structLogs, found, log.depth)
        {
          var nextLog := structLogs[i];
          if nextLog.depth == log.depth {
            nextLogSameDepth := Some(nextLog);
            found := i;
          } else {
            found := i + 1;
          }
          i := i + 1;
        }
        target := CallTarget(
          if nextLogSameDepth.Some? then StackTop(nextLogSameDepth.value, 1) else None,
          true);
      case _ =>
        target := CallTarget(None, false);
    }
  }

  // ---------------------------------------------------------------------------------------------
  // The rules of cost and target, opcode by opcode.

  /** The costs, by the names of the opcodes and whatever log comes next. */
  lemma {:induction false} GasCostByName(log: Log, next: Option<Log>)
    ensures log.op in {RETURN, REVERT, STOP} && log.gasCost < 0 ==> GetGasCost(log, next) == 0
    ensures log.op in {CALL, CALLCODE, DELEGATECALL, STATICCALL} ==>
              GetGasCost(log, next)
              == if next.Some? && next.value.depth == log.depth then log.gas - next.value.gas else log.gasCost
    ensures log.op !in {CALL, CALLCODE, DELEGATECALL, STATICCALL}
            && !(log.op in {RETURN, REVERT, STOP} && log.gasCost < 0) ==>
              GetGasCost(log, next) == log.gasCost
  {}

  /** Every one of the four calls reads its target below the gas on top of the stack. */
  lemma {:induction false} CallTargetByName(logs: Logs, i: nat, below: seq<Address>, address: Address, gas: Address)
    requires i < |logs| && logs[i].op in {CALL, CALLCODE, DELEGATECALL, STATICCALL}
    ensures logs[i].stack == below + [address, gas] ==> CallTargetOf(logs, i) == CallTarget(Some(address), false)
    ensures |logs[i].stack| < 2 ==> CallTargetOf(logs, i) == CallTarget(None, false)
  {}

  /** Both creates read it from the top of the stack of the next log `j` at their own depth. */
  lemma {:induction false} CreateTargetByName(logs: Logs, i: nat, j: nat, below: seq<Address>, address: Address)
    requires i < j <= |logs| && logs[i].op in {CREATE, CREATE2}
    requires forall k | i < k < j :: logs[k].depth != logs[i].depth
    requires j < |logs| ==> logs[j].depth == logs[i].depth
    ensures j < |logs| && logs[j].stack == below + [address] ==>
              CallTargetOf(logs, i) == CallTarget(Some(address), true)
    ensures j == |logs| || logs[j].stack == [] ==> CallTargetOf(logs, i) == CallTarget(None, true)
  {
    NextAtDepthUnique(logs, i + 1, logs[i].depth, j);
  }

  lemma {:induction false} NextAtDepthUnique(logs: Logs, from: nat, depth: int, j: nat)
    requires from <= j <= |logs|
    requires j < |logs| ==> logs[j].depth == depth
    requires forall k | from <= k < j :: logs[k].depth != depth
    ensures NextAtDepth(logs, from, depth) == j
    decreases j - from
  {
    if from < j {
      NextAtDepthUnique(logs, from + 1, depth, j);
    }
  }

  /** No other opcode has a target. */
  lemma {:induction false} NoTargetByName(logs: Logs, i: nat)
    requires i < |logs|
    requires logs[i].op !in {CALL, CALLCODE, DELEGATECALL, STATICCALL, CREATE, CREATE2}
    ensures CallTargetOf(logs, i) == CallTarget(None, false)
  {}

  /** Depth never dips below the first log's, and only rises by one, right after a log that the
      profiler recognises as a call or create with a target. */
  ghost predicate DepthsOk(logs: Logs) {
    && |logs| > 0
    && (forall i | 0 <= i < |logs| :: logs[0].depth <= logs[i].depth)
    && (forall i | 0 <= i < |logs| :: RiseOk(logs, i))
  }

  predicate RiseOk(logs: Logs, i: nat)
    requires i < |logs|
  {
    i + 1 < |logs| && logs[i].depth < logs[i + 1].depth ==>
      logs[i + 1].depth == logs[i].depth + 1 && CallTargetOf(logs, i).address.Some?
  }

  /** By how much depth falls after log `i`; negative when it rises. */
  function Drop(logs: Logs, i: nat): int
    requires i < |logs|
  {
    if i + 1 < |logs| then logs[i].depth - logs[i + 1].depth else 0
  }

  /** Depth never drops by more than one between consecutive logs. */
  ghost predicate SingleDrops(logs: Logs) {
    forall i | 0 <= i < |logs| :: Drop(logs, i) <= 1
  }

  /** The condition under which the trace loop pushes a frame at log `i`. */
  predicate Opens(logs: Logs, i: nat)
    requires i < |logs|
  {
    i + 1 < |logs| && logs[i].depth < logs[i + 1].depth && CallTargetOf(logs, i).address.Some?
  }

  lemma {:induction false} NoneBelowBefore(logs: Logs, from: nat, depth: int)
    requires from <= |logs|
    ensures forall k | from <= k < FirstBelow(logs, from, depth) :: depth <= logs[k].depth
    decreases |logs| - from
  {
    if from < |logs| && depth <= logs[from].depth {
      NoneBelowBefore(logs, from + 1, depth);
    }
  }

  lemma {:induction false} FirstBelowUnique(logs: Logs, from: nat, depth: int, j: nat)
    requires from <= j <= |logs|
    requires j < |logs| ==> logs[j].depth < depth
    requires forall k | from <= k < j :: depth <= logs[k].depth
    ensures FirstBelow(logs, from, depth) == j
    decreases j - from
  {
    if from < j {
      FirstBelowUnique(logs, from + 1, depth, j);
    }
  }

  /** A frame's end does not move when the search starts later inside the frame. */
  lemma {:induction false} FirstBelowFrom(logs: Logs, a: nat, b: nat, depth: int)
    requires a <= b <= |logs|
    requires forall k | a <= k < b :: depth <= logs[k].depth
    ensures FirstBelow(logs, a, depth) == FirstBelow(logs, b, depth)
    decreases b - a
  {
    if a < b {
      FirstBelowFrom(logs, a + 1, b, depth);
    }
  }

  /** The look-ahead for a created address finds the very log at which the frame is popped,
      exactly when that frame returns to its creator's depth or never returns. `from` is the first
      log after the create and `depth` the creator's depth. */
  lemma {:induction false} CreateLookahead(logs: Logs, from: nat, depth: int)
    requires from <= |logs|
    ensures var r := FirstBelow(logs, from, depth + 1);
            NextAtDepth(logs, from, depth) == r <==> (r < |logs| ==> logs[r].depth == depth)
    decreases |logs| - from
  {
    if from < |logs| && depth + 1 <= logs[from].depth {
      CreateLookahead(logs, from + 1, depth);
    }
  }

  /** With single drops that always holds, and everything in between is deeper. */
  lemma {:induction false} CreateLookaheadSingleDrops(logs: Logs, a: nat)
    requires SingleDrops(logs)
    requires a < |logs| && Opens(logs, a)
    ensures var j := NextAtDepth(logs, a + 1, logs[a].depth);
            && j == FirstBelow(logs, a + 1, logs[a].depth + 1)
            && (forall k | a < k < j :: logs[a].depth < logs[k].depth)
  {
    var r := FirstBelow(logs, a + 1, logs[a].depth + 1);
    NoneBelowBefore(logs, a + 1, logs[a].depth + 1);
    if r < |logs| {
      assert r != a + 1 && logs[a].depth + 1 <= logs[r - 1].depth;
      assert Drop(logs, r - 1) <= 1;
    }
    CreateLookahead(logs, a + 1, logs[a].depth);
  }
}
