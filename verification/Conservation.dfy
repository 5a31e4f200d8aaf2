/** Where all the gas goes: the exact law that relates the line, synthetic and unattributed gas to
    the totals reported for the contracts. */
module Conservation {
  import opened Wrappers
  import opened Trace
  import opened Lookup
  import opened CallTree
  import opened Ledger
  import opened Figures

  /** Gas of the entry contract as the profiler sets it after the loop. */
  function EntryTotal(logs: Logs): int
    requires |logs| > 0
  {
    logs[0].gas - logs[|logs| - 1].gas + GetGasCost(logs[|logs| - 1], None)
  }

  /** The same for the whole trace, which has no log behind its last. */
  lemma {:induction false} EntryTotalByName(logs: Logs)
    requires |logs| > 0
    ensures var last := logs[|logs| - 1];
            EntryTotal(logs)
            == logs[0].gas - last.gas
               + if last.op in {RETURN, REVERT, STOP} && last.gasCost < 0 then 0 else last.gasCost
  {
    GasCostByName(logs[|logs| - 1], None);
  }

  /** What the logs `a`..`e`-1 of one frame use up, seen from outside: first gas minus last gas
      plus last cost. */
  function Consumed(logs: Logs, a: nat, e: nat): int
    requires a < e <= |logs|
  {
    logs[a].gas - logs[e - 1].gas + CostAt(logs, e - 1)
  }

  /** How far the reported cost of log `i` is from the drop in gas to the next log. */
  function Excess(logs: Logs, i: nat): int
    requires i < |logs|
  {
    if i + 1 < |logs| then CostAt(logs, i) - (logs[i].gas - logs[i + 1].gas) else 0
  }

  /** How much log `i` upsets the books. Within a frame (drop 0) an excess is charged once too
      often; at a plain return (drop 1) it is charged once and counted once in the callee's total;
      at a return through several frames at once every further frame counts it again. */
  function Drift(logs: Logs, i: nat): int
    requires i < |logs|
  {
    if Opens(logs, i) then 0 else (1 - Drop(logs, i)) * Excess(logs, i)
  }

  function DriftSum(logs: Logs, a: nat, e: nat): int
    requires a <= e <= |logs|
    decreases e - a
  {
    if a == e then 0 else Drift(logs, a) + DriftSum(logs, a + 1, e)
  }

  lemma {:induction false} DriftSumSplit(logs: Logs, a: nat, m: nat, e: nat)
    requires a <= m <= e <= |logs|
    ensures DriftSum(logs, a, e) == DriftSum(logs, a, m) + DriftSum(logs, m, e)
    decreases m - a
  {
    if a < m {
      DriftSumSplit(logs, a + 1, m, e);
    }
  }

  /** The gas that the calls among the logs `a`..`e`-1 take with them and that never comes back,
      because the trace ends before they return. */
  function NeverReturned(logs: Logs, a: nat, e: nat): int
    requires a <= e <= |logs|
    decreases e - a
  {
    if a == e then 0
    else
      NeverReturned(logs, a + 1, e)
      + if Opens(logs, a) && !Returns(logs, a) then logs[a].gas - logs[a + 1].gas else 0
  }

  lemma {:induction false} NeverReturnedSplit(logs: Logs, a: nat, m: nat, e: nat)
    requires a <= m <= e <= |logs|
    ensures NeverReturned(logs, a, e) == NeverReturned(logs, a, m) + NeverReturned(logs, m, e)
    decreases m - a
  {
    if a < m {
      NeverReturnedSplit(logs, a + 1, m, e);
    }
  }

  function Net(evs: seq<Event>): int {
    Paid(evs) - FrameTotals(evs, None)
  }

  lemma {:induction false} NetCons(e: Event, evs: seq<Event>)
    ensures Net([e] + evs) == Amount(e) - FrameTotal(e) + Net(evs)
  {
    PaidCons(e, evs);
    FrameTotalsCons(e, evs);
  }

  /** The net of a call: its callee's, its own inclusive cost less its callee's total, and the rest. */
  lemma {:induction false} NetAfterCall(logs: Logs, who: FrameId, d: int, a: nat, rest: seq<Event>)
    requires a < |logs| && Returns(logs, a) && a + 1 < ReturnOf(logs, a)
    ensures var r := ReturnOf(logs, a);
            Net(AfterCall(logs, who, d, a, rest))
            == logs[a].gas - logs[r].gas - Consumed(logs, a + 1, r) + Net(Events(logs, who, d, r, rest))
  {
    NetCons(LeaveAt(logs, a, who), Events(logs, who, d, ReturnOf(logs, a), rest));
  }

  /** The law for one frame from its log `a` to its end `e`: everything charged in it and in the
      frames below it, less the totals of the frames below it, telescopes to what the frame
      consumes, less what never returns, up to drift. Of the last log's drift only the levels inside
      this frame count. */
  ghost predicate Conserves(logs: Logs, d: int, a: nat, e: nat, net: int)
    requires e <= |logs|
  {
    && a < e
    && net == Consumed(logs, a, e) - NeverReturned(logs, a, e) + DriftSum(logs, a, e - 1)
              - (logs[e - 1].depth - d) * Excess(logs, e - 1)
  }

  lemma {:induction false} ConservesOverStep(logs: Logs, d: int, a: nat, e: nat, rest: int)
    requires a < e <= |logs| && logs[a].depth == d && !Opens(logs, a)
    requires if a + 1 < e then logs[a + 1].depth == d && Conserves(logs, d, a + 1, e, rest) else rest == 0
    ensures Conserves(logs, d, a, e, CostAt(logs, a) + rest)
  {
    if a + 1 < e {
      assert Drift(logs, a) == Excess(logs, a);
    }
  }

  /** The callee returns to its caller at log `r`, which goes on to its end `e`. */
  lemma {:induction false} ConservesOverCall(logs: Logs, d: int, a: nat, r: nat, e: nat, callee: int, rest: int)
    requires a + 1 < r < e <= |logs| && Returns(logs, a)
    requires logs[a].depth == d == logs[r].depth && d < logs[r - 1].depth
    requires Conserves(logs, d + 1, a + 1, r, callee) && Conserves(logs, d, r, e, rest)
    ensures Conserves(logs, d, a, e, callee + logs[a].gas - logs[r].gas - Consumed(logs, a + 1, r) + rest)
  {
    DriftAtReturn(logs, r - 1, d);
    DriftSumSplit(logs, a + 1, r - 1, e - 1);
    NeverReturnedSplit(logs, a + 1, r, e);
  }

  /** The callee and its caller end together at log `e`. */
  lemma {:induction false} ConservesOverLastCall(logs: Logs, d: int, a: nat, e: nat, callee: int)
    requires a + 1 < e < |logs| && Returns(logs, a)
    requires logs[a].depth == d
    requires Conserves(logs, d + 1, a + 1, e, callee)
    ensures Conserves(logs, d, a, e, callee + logs[a].gas - logs[e].gas - Consumed(logs, a + 1, e))
  {
    var overshoot := logs[e - 1].depth - (d + 1);
    assert (overshoot + 1) * Excess(logs, e - 1) == overshoot * Excess(logs, e - 1) + Excess(logs, e - 1);
  }

  /** The trace ends inside the callee. */
  lemma {:induction false} ConservesOverOpenCall(logs: Logs, d: int, a: nat, callee: int)
    requires a + 1 < |logs| && Opens(logs, a) && !Returns(logs, a)
    requires Conserves(logs, d + 1, a + 1, |logs|, callee)
    ensures Conserves(logs, d, a, |logs|, callee)
  {
    assert Excess(logs, |logs| - 1) == 0;
  }

  lemma {:induction false} DriftAtReturn(logs: Logs, i: nat, d: int)
    requires i + 1 < |logs| && logs[i + 1].depth == d < logs[i].depth
    ensures Drift(logs, i) == -((logs[i].depth - (d + 1)) * Excess(logs, i))
  {}

  ghost predicate FrameLaw(logs: Logs, who: FrameId, d: int, a: nat, rest: seq<Event>)
    requires a <= |logs|
  {
    Conserves(logs, d, a, FirstBelow(logs, a, d), Net(Events(logs, who, d, a, rest)) - Net(rest))
  }

  lemma {:induction false} FrameConserves(logs: Logs, who: FrameId, d: int, a: nat, rest: seq<Event>)
    requires DepthsOk(logs) && a < |logs| && logs[a].depth == d
    ensures FrameLaw(logs, who, d, a, rest)
    decreases |logs| - a
  {
    var next := NextInFrame(logs, a);
    if next < |logs| && logs[next].depth == d {
      FrameConserves(logs, who, d, next, rest);
    }
    assert RiseOk(logs, a);
    if Opens(logs, a) {
      FrameConserves(logs, CalleeOf(logs, a), d + 1, a + 1, AfterCall(logs, who, d, a, rest));
      FrameLawAtCall(logs, who, d, a, rest);
    } else {
      FrameLawAtStep(logs, who, d, a, rest);
    }
  }

  lemma {:induction false} FrameLawAtStep(logs: Logs, who: FrameId, d: int, a: nat, rest: seq<Event>)
    requires DepthsOk(logs) && a < |logs| && logs[a].depth == d && !Opens(logs, a)
    requires a + 1 < |logs| && logs[a + 1].depth == d ==> FrameLaw(logs, who, d, a + 1, rest)
    ensures FrameLaw(logs, who, d, a, rest)
  {
    assert RiseOk(logs, a);
    var after := Events(logs, who, d, a + 1, rest);
    NetCons(Step(logs[a], LogAt(logs, a + 1), who), after);
    ConservesOverStep(logs, d, a, FirstBelow(logs, a, d), Net(after) - Net(rest));
  }

  lemma {:induction false} FrameLawAtCall(logs: Logs, who: FrameId, d: int, a: nat, rest: seq<Event>)
    requires DepthsOk(logs) && a < |logs| && logs[a].depth == d && Opens(logs, a)
    requires FrameLaw(logs, CalleeOf(logs, a), d + 1, a + 1, AfterCall(logs, who, d, a, rest))
    requires var r := ReturnOf(logs, a); r < |logs| && logs[r].depth == d ==> FrameLaw(logs, who, d, r, rest)
    ensures FrameLaw(logs, who, d, a, rest)
  {
    var r, tail := ReturnOf(logs, a), AfterCall(logs, who, d, a, rest);
    var sub := Events(logs, CalleeOf(logs, a), d + 1, a + 1, tail);
    CallEnds(logs, d, a);
    NetCons(Enter(logs[a], who, CalleeOf(logs, a)), sub);
    if r == |logs| {
      ConservesOverOpenCall(logs, d, a, Net(sub) - Net(tail));
    } else {
      NetAfterCall(logs, who, d, a, rest);
      ConservesOverReturn(logs, who, d, a, rest, Net(sub) - Net(tail));
    }
  }

  /** Where the frame of a call, and the frame around it, end. */
  lemma {:induction false} CallEnds(logs: Logs, d: int, a: nat)
    requires DepthsOk(logs) && a < |logs| && logs[a].depth == d && Opens(logs, a)
    ensures var r, e := ReturnOf(logs, a), FirstBelow(logs, a, d);
            && FirstBelow(logs, r, d) == e
            && FirstBelow(logs, a + 1, d + 1) == r
            && a + 1 < r
            && d < logs[r - 1].depth
            && (r < |logs| && logs[r].depth != d ==> e == r)
            && (r == |logs| ==> e == r)
  {
    var r := ReturnOf(logs, a);
    NoneBelowBefore(logs, a + 1, d + 1);
    assert RiseOk(logs, a);
    FirstBelowFrom(logs, a, r, d);
  }

  lemma {:induction false} ConservesOverReturn(logs: Logs, who: FrameId, d: int, a: nat, rest: seq<Event>,
                                               callee: int)
    requires a < |logs| && logs[a].depth == d && Returns(logs, a)
    requires var r, e := ReturnOf(logs, a), FirstBelow(logs, a, d);
             && a + 1 < r
             && d < logs[r - 1].depth
             && FirstBelow(logs, r, d) == e
             && (logs[r].depth == d ==> FrameLaw(logs, who, d, r, rest))
             && (logs[r].depth != d ==> e == r)
    requires Conserves(logs, d + 1, a + 1, ReturnOf(logs, a), callee)
    ensures var r := ReturnOf(logs, a);
            Conserves(logs, d, a, FirstBelow(logs, a, d),
              callee + logs[a].gas - logs[r].gas - Consumed(logs, a + 1, r)
              + Net(Events(logs, who, d, r, rest)) - Net(rest))
  {
    var r, e := ReturnOf(logs, a), FirstBelow(logs, a, d);
    if logs[r].depth == d {
      ConservesOverCall(logs, d, a, r, e, callee, Net(Events(logs, who, d, r, rest)) - Net(rest));
    } else {
      assert Events(logs, who, d, r, rest) == rest;
      ConservesOverLastCall(logs, d, a, e, callee);
    }
  }

  /** The exact conservation law, over every trace: all charges together, and the gas that went into
      calls that never return, are the entry total plus all frame totals plus the drift. */
  lemma {:induction false} GasConservation(env: Env, logs: Logs, entry: FrameId)
    requires DepthsOk(logs)
    ensures var evs := TraceEvents(logs, entry);
            var cs := Charges(env, evs);
            Balance(AllLines, cs) + Balance(AllSynth, cs) + Balance(Lost, cs) + NeverReturned(logs, 0, |logs|)
            == EntryTotal(logs) + FrameTotals(evs, None) + DriftSum(logs, 0, |logs| - 1)
  {
    var evs := TraceEvents(logs, entry);
    FirstBelowUnique(logs, 0, logs[0].depth, |logs|);
    FrameConserves(logs, entry, logs[0].depth, 0, []);
    assert Excess(logs, |logs| - 1) == 0;
    ChargesTotal(env, evs);
    BucketsPartition(Charges(env, evs));
  }

  /** The totals account for all charges if and only if the drift is what never returns. */
  lemma {:induction false} BooksBalanceIff(env: Env, logs: Logs, entry: FrameId)
    requires DepthsOk(logs)
    ensures var evs := TraceEvents(logs, entry);
            Balance(Everything, Charges(env, evs)) == EntryTotal(logs) + FrameTotals(evs, None)
            <==> DriftSum(logs, 0, |logs| - 1) == NeverReturned(logs, 0, |logs|)
  {
    GasConservation(env, logs, entry);
    BucketsPartition(Charges(env, TraceEvents(logs, entry)));
  }

  /** The log before a return belongs to the frame that is popped, which the profiler takes for
      granted, if and only if it is one level below the call. */
  lemma {:induction false} PreviousLogIsInFrame(logs: Logs, a: nat)
    requires DepthsOk(logs) && a < |logs| && Returns(logs, a)
    ensures var last := ReturnOf(logs, a) - 1;
            LastShallower(logs, last, logs[last].depth) == a <==> logs[last].depth == logs[a].depth + 1
  {
    var last := ReturnOf(logs, a) - 1;
    NoneBelowBefore(logs, a + 1, logs[a].depth + 1);
    assert RiseOk(logs, a);
    if logs[last].depth == logs[a].depth + 1 {
      LastShallowerFrom(logs, a + 1, last, logs[last].depth);
    } else {
      LastShallowerAtLeast(logs, last, logs[last].depth, a + 1);
    }
  }

  lemma {:induction false} LastShallowerAtLeast(logs: Logs, i: nat, d: int, k: nat)
    requires k < i <= |logs| && logs[k].depth < d
    ensures k <= LastShallower(logs, i, d)
  {
    if logs[i - 1].depth >= d {
      LastShallowerAtLeast(logs, i - 1, d, k);
    }
  }

  ghost predicate EndsAtBottom(logs: Logs)
    requires |logs| > 0
  {
    logs[|logs| - 1].depth == logs[0].depth
  }

  /** When the trace ends in the entry frame, every call has returned. */
  lemma {:induction false} CallReturns(logs: Logs, a: nat)
    requires DepthsOk(logs) && EndsAtBottom(logs) && a < |logs| && Opens(logs, a)
    ensures a + 1 < ReturnOf(logs, a) < |logs|
    ensures forall k | a < k < ReturnOf(logs, a) :: logs[a].depth < logs[k].depth
  {
    NoneBelowBefore(logs, a + 1, logs[a].depth + 1);
    assert logs[|logs| - 1].depth <= logs[a].depth;
  }

  lemma {:induction false} AllReturned(logs: Logs, a: nat)
    requires DepthsOk(logs) && EndsAtBottom(logs) && a <= |logs|
    ensures NeverReturned(logs, a, |logs|) == 0
    decreases |logs| - a
  {
    if a < |logs| {
      AllReturned(logs, a + 1);
      if Opens(logs, a) {
        CallReturns(logs, a);
      }
    }
  }

  // ---------------------------------------------------------------------------------------------
  // When is there no drift?

  /** Reported costs are the drops in gas from one log of a frame to the next. */
  ghost predicate Steady(logs: Logs) {
    forall i | 0 <= i < |logs| :: Drop(logs, i) == 0 ==> Excess(logs, i) == 0
  }

  /** Calls that open no frame are always steady, whatever cost the client reports for them, and so
      is a halting opcode with a negative cost. Only the other opcodes have to report the drop. */
  lemma {:induction false} SteadyMeans(logs: Logs)
    ensures Steady(logs) <==> forall i | 0 <= i < |logs| :: ReportsDrop(logs, i)
  {
    forall i | 0 <= i < |logs| ensures ReportsDrop(logs, i) <==> (Drop(logs, i) == 0 ==> Excess(logs, i) == 0) {}
  }

  predicate ReportsDrop(logs: Logs, i: nat)
    requires i < |logs|
  {
    var log := logs[i];
    i + 1 < |logs| && logs[i + 1].depth == log.depth && !IsCall(log.op) ==>
      logs[i + 1].gas == log.gas - if IsHalt(log.op) && log.gasCost < 0 then 0 else log.gasCost
  }

  lemma {:induction false} SteadyHasNoDrift(logs: Logs, a: nat, e: nat)
    requires DepthsOk(logs) && SingleDrops(logs) && Steady(logs) && a <= e <= |logs|
    ensures DriftSum(logs, a, e) == 0
    decreases e - a
  {
    if a < e {
      SteadyHasNoDrift(logs, a + 1, e);
      assert RiseOk(logs, a) && Drop(logs, a) <= 1;
      assert Drop(logs, a) == 0 ==> Excess(logs, a) == 0;
    }
  }

  /** What a user can check: no drop through several frames, and costs that are drops in gas. Then
      every unit of gas is accounted for. */
  lemma {:induction false} SteadyTraceConserves(env: Env, logs: Logs, entry: FrameId)
    requires DepthsOk(logs) && EndsAtBottom(logs) && SingleDrops(logs) && Steady(logs)
    ensures Balance(Everything, Charges(env, TraceEvents(logs, entry)))
            == EntryTotal(logs) + FrameTotals(TraceEvents(logs, entry), None)
  {
    GasConservation(env, logs, entry);
    AllReturned(logs, 0);
    SteadyHasNoDrift(logs, 0, |logs| - 1);
    BucketsPartition(Charges(env, TraceEvents(logs, entry)));
  }

  /** Four logs that drop through two frames at once: the 10 gas that the last opcode costs beyond
      the drop in gas is counted for both frames, and charged once. */
  function DropThroughTwo(): Logs {
    [ Log(1, 100, 0, CALL, 0, [7, 0]),
      Log(2, 90, 0, CALL, 0, [8, 0]),
      Log(3, 80, 20, STOP, 0, []),
      Log(1, 70, 0, STOP, 0, []) ]
  }

  lemma {:induction false} DropThroughTwoIsAccepted(env: Env, entry: FrameId)
    requires env.code == map[]
    ensures Accepts(env, DropThroughTwo(), entry)
  {
    var logs := DropThroughTwo();
    assert RiseOk(logs, 0) && RiseOk(logs, 1) && RiseOk(logs, 2) && RiseOk(logs, 3);
    AcceptsByLog(env, logs, entry);
  }

  lemma {:induction false} DropThroughTwoMiscounts(env: Env, entry: FrameId)
    ensures DepthsOk(DropThroughTwo()) && EndsAtBottom(DropThroughTwo())
    ensures env.code == map[] ==> Accepts(env, DropThroughTwo(), entry)
    ensures Balance(Everything, Charges(env, TraceEvents(DropThroughTwo(), entry)))
            == EntryTotal(DropThroughTwo()) + FrameTotals(TraceEvents(DropThroughTwo(), entry), None) - 10
  {
    var logs := DropThroughTwo();
    assert RiseOk(logs, 0) && RiseOk(logs, 1) && RiseOk(logs, 2) && RiseOk(logs, 3);
    assert Drift(logs, 0) == 0 && Drift(logs, 1) == 0 && Drift(logs, 2) == -10;
    assert DriftSum(logs, 2, 3) == Drift(logs, 2) + DriftSum(logs, 3, 3);
    assert DriftSum(logs, 1, 3) == Drift(logs, 1) + DriftSum(logs, 2, 3);
    assert DriftSum(logs, 0, 3) == Drift(logs, 0) + DriftSum(logs, 1, 3);
    GasConservation(env, logs, entry);
    AllReturned(logs, 0);
    BucketsPartition(Charges(env, TraceEvents(logs, entry)));
    if env.code == map[] {
      DropThroughTwoIsAccepted(env, entry);
    }
  }
}
