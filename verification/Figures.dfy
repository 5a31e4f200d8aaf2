/** Every printed figure as a plain sum over the logs: no stack, no call tree, only the frame of each
    log and the log at which a call returns. */
module Figures {
  import opened Wrappers
  import opened Trace
  import opened Lookup
  import opened CallTree
  import opened Ledger

  // ---------------------------------------------------------------------------------------------
  // The events of a trace, log by log.

  /** Log `i` opens a frame that returns. */
  predicate Returns(logs: Logs, i: nat)
    requires i < |logs|
  {
    Opens(logs, i) && ReturnOf(logs, i) < |logs|
  }

  /** The event of log `i` itself, in the frame that owns it. */
  function OwnEvent(logs: Logs, entry: FrameId, i: nat): Event
    requires i < |logs|
  {
    var who := FrameOf(logs, entry, i);
    if Opens(logs, i) then Enter(logs[i], who, CalleeOf(logs, i)) else Step(logs[i], LogAt(logs, i + 1), who)
  }

  /** The return of the call that log `i` makes. */
  function ReturnEvent(logs: Logs, entry: FrameId, i: nat): Event
    requires i < |logs| && Returns(logs, i)
  {
    LeaveAt(logs, i, FrameOf(logs, entry, i))
  }

  function EventSum(evs: seq<Event>, f: Event -> int): int {
    if evs == [] then 0 else EventSum(evs[..|evs| - 1], f) + f(evs[|evs| - 1])
  }

  lemma {:induction false} EventSumCons(e: Event, evs: seq<Event>, f: Event -> int)
    ensures EventSum([e] + evs, f) == f(e) + EventSum(evs, f)
  {
    var all := [e] + evs;
    if evs == [] {
      assert all[..|all| - 1] == [];
    } else {
      assert all[..|all| - 1] == [e] + evs[..|evs| - 1];
      EventSumCons(e, evs[..|evs| - 1], f);
    }
  }

  /** What the events of log `i` amount to. */
  function LogAmount(logs: Logs, entry: FrameId, f: Event -> int, i: nat): int
    requires i < |logs|
  {
    f(OwnEvent(logs, entry, i)) + if Returns(logs, i) then f(ReturnEvent(logs, entry, i)) else 0
  }

  function LogSum(logs: Logs, entry: FrameId, f: Event -> int, a: nat, e: nat): int
    requires a <= e <= |logs|
    decreases e - a
  {
    if a == e then 0 else LogAmount(logs, entry, f, a) + LogSum(logs, entry, f, a + 1, e)
  }

  lemma {:induction false} LogSumSplit(logs: Logs, entry: FrameId, f: Event -> int, a: nat, m: nat, e: nat)
    requires a <= m <= e <= |logs|
    ensures LogSum(logs, entry, f, a, e) == LogSum(logs, entry, f, a, m) + LogSum(logs, entry, f, m, e)
    decreases m - a
  {
    if a < m {
      LogSumSplit(logs, entry, f, a + 1, m, e);
    }
  }

  /** The rest of a frame, from its log `a` on, has the events of the logs up to its end. */
  ghost predicate SumsRange(logs: Logs, entry: FrameId, who: FrameId, d: int, a: nat, rest: seq<Event>, f: Event -> int)
    requires a <= |logs|
  {
    EventSum(Events(logs, who, d, a, rest), f)
    == LogSum(logs, entry, f, a, FirstBelow(logs, a, d)) + EventSum(rest, f)
  }

  lemma {:induction false} FrameSum(logs: Logs, entry: FrameId, who: FrameId, d: int, a: nat, rest: seq<Event>,
                                    f: Event -> int)
    requires DepthsOk(logs) && a <= |logs|
    requires InFrame(logs, entry, who, d, a)
    ensures SumsRange(logs, entry, who, d, a, rest, f)
    decreases |logs| - a
  {
    if a < |logs| && logs[a].depth == d {
      NextStaysInFrame(logs, entry, a);
      FrameSum(logs, entry, who, d, NextInFrame(logs, a), rest, f);
      if Opens(logs, a) {
        FrameSum(logs, entry, CalleeOf(logs, a), d + 1, a + 1, AfterCall(logs, who, d, a, rest), f);
        SumsRangeOverCall(logs, entry, who, d, a, ReturnOf(logs, a), FirstBelow(logs, a, d), rest, f);
      } else {
        EventSumCons(Step(logs[a], LogAt(logs, a + 1), who), Events(logs, who, d, a + 1, rest), f);
      }
    }
  }

  lemma {:induction false} SumsRangeOverCall(logs: Logs, entry: FrameId, who: FrameId, d: int, a: nat, r: nat,
                                             e: nat, rest: seq<Event>, f: Event -> int)
    requires a < |logs| && logs[a].depth == d && FrameOf(logs, entry, a) == who && Opens(logs, a)
    requires r == ReturnOf(logs, a) <= e <= |logs|
    requires var tail := AfterCall(logs, who, d, a, rest);
             EventSum(Events(logs, CalleeOf(logs, a), d + 1, a + 1, tail), f)
             == LogSum(logs, entry, f, a + 1, r) + EventSum(tail, f)
    requires EventSum(Events(logs, who, d, r, rest), f) == LogSum(logs, entry, f, r, e) + EventSum(rest, f)
    ensures EventSum(Events(logs, who, d, a, rest), f) == LogSum(logs, entry, f, a, e) + EventSum(rest, f)
  {
    LogSumOverCall(logs, entry, who, a, r, e, f);
    SumOfCall(logs, who, d, a, rest, f);
    SumAfterCall(logs, who, d, a, rest, f);
  }

  lemma {:induction false} SumOfCall(logs: Logs, who: FrameId, d: int, a: nat, rest: seq<Event>, f: Event -> int)
    requires a < |logs| && logs[a].depth == d && Opens(logs, a)
    ensures EventSum(Events(logs, who, d, a, rest), f)
            == f(Enter(logs[a], who, CalleeOf(logs, a)))
               + EventSum(Events(logs, CalleeOf(logs, a), d + 1, a + 1, AfterCall(logs, who, d, a, rest)), f)
  {
    var sub := Events(logs, CalleeOf(logs, a), d + 1, a + 1, AfterCall(logs, who, d, a, rest));
    EventSumCons(Enter(logs[a], who, CalleeOf(logs, a)), sub, f);
  }

  lemma {:induction false} LogSumOverCall(logs: Logs, entry: FrameId, who: FrameId, a: nat, r: nat, e: nat,
                                          f: Event -> int)
    requires a < |logs| && FrameOf(logs, entry, a) == who && Opens(logs, a)
    requires r == ReturnOf(logs, a) <= e <= |logs|
    ensures LogSum(logs, entry, f, a, e)
            == f(Enter(logs[a], who, CalleeOf(logs, a)))
               + (if r < |logs| then f(LeaveAt(logs, a, who)) else 0)
               + LogSum(logs, entry, f, a + 1, r) + LogSum(logs, entry, f, r, e)
  {
    LogSumSplit(logs, entry, f, a + 1, r, e);
    assert LogSum(logs, entry, f, a, e) == LogAmount(logs, entry, f, a) + LogSum(logs, entry, f, a + 1, e);
  }

  lemma {:induction false} SumAfterCall(logs: Logs, who: FrameId, d: int, a: nat, rest: seq<Event>, f: Event -> int)
    requires a < |logs| && Opens(logs, a)
    ensures EventSum(AfterCall(logs, who, d, a, rest), f)
            == EventSum(Events(logs, who, d, ReturnOf(logs, a), rest), f)
               + if ReturnOf(logs, a) < |logs| then f(LeaveAt(logs, a, who)) else 0
  {
    if ReturnOf(logs, a) < |logs| {
      EventSumCons(LeaveAt(logs, a, who), Events(logs, who, d, ReturnOf(logs, a), rest), f);
    }
  }

  /** Any sum over the call tree is a sum over the logs: each log has its own event, and one more for
      its return if it makes a call that returns. */
  lemma {:induction false} TreeSumIsLogSum(logs: Logs, entry: FrameId, f: Event -> int)
    requires DepthsOk(logs)
    ensures EventSum(TraceEvents(logs, entry), f) == LogSum(logs, entry, f, 0, |logs|)
  {
    FirstBelowUnique(logs, 0, logs[0].depth, |logs|);
    FrameSum(logs, entry, entry, logs[0].depth, 0, [], f);
  }

  // ---------------------------------------------------------------------------------------------
  // Which events there are.

  function Is(e: Event): Event -> int {
    x => if x == e then 1 else 0
  }

  lemma {:induction false} InEvents(evs: seq<Event>, e: Event)
    ensures EventSum(evs, Is(e)) >= 0
    ensures e in evs <==> EventSum(evs, Is(e)) > 0
  {
    if evs != [] {
      var before, last := evs[..|evs| - 1], evs[|evs| - 1];
      InEvents(before, e);
      InPush(before, last, e);
      assert evs == before + [last];
      assert Is(e)(last) == if last == e then 1 else 0;
    }
  }

  lemma {:induction false} InPush(evs: seq<Event>, last: Event, e: Event)
    ensures e in evs + [last] <==> e in evs || e == last
  {}

  predicate IsEventOf(logs: Logs, entry: FrameId, e: Event, i: nat)
    requires i < |logs|
  {
    e == OwnEvent(logs, entry, i) || (Returns(logs, i) && e == ReturnEvent(logs, entry, i))
  }

  lemma {:induction false} InLogs(logs: Logs, entry: FrameId, e: Event, a: nat)
    requires a <= |logs|
    ensures LogSum(logs, entry, Is(e), a, |logs|) >= 0
    ensures LogSum(logs, entry, Is(e), a, |logs|) > 0
            <==> exists i | a <= i < |logs| :: IsEventOf(logs, entry, e, i)
    decreases |logs| - a
  {
    if a < |logs| {
      InLogs(logs, entry, e, a + 1);
      assert LogAmount(logs, entry, Is(e), a) > 0 <==> IsEventOf(logs, entry, e, a);
    }
  }

  /** The call tree has exactly these events. In particular its returns are those of the opening logs
      whose frame ends, each with the first log of the frame, its last, and the log it returns to. */
  lemma {:induction false} EventsOfTrace(logs: Logs, entry: FrameId, e: Event)
    requires DepthsOk(logs)
    ensures e in TraceEvents(logs, entry) <==> exists i | 0 <= i < |logs| :: IsEventOf(logs, entry, e, i)
  {
    TreeSumIsLogSum(logs, entry, Is(e));
    InEvents(TraceEvents(logs, entry), e);
    InLogs(logs, entry, e, 0);
  }

  /** The profiler gets through exactly the traces with such depths whose every log, in its frame, has
      a source-map entry, or code without tables. */
  lemma {:induction false} AcceptsByLog(env: Env, logs: Logs, entry: FrameId)
    ensures Accepts(env, logs, entry)
            <==> && DepthsOk(logs)
                 && forall i | 0 <= i < |logs| :: Locate(env, FrameOf(logs, entry, i), logs[i].pc).Success?
  {
    if DepthsOk(logs) {
      forall i | 0 <= i < |logs|
        ensures Resolves(env, OwnEvent(logs, entry, i))
                <==> Locate(env, FrameOf(logs, entry, i), logs[i].pc).Success?
        ensures OwnEvent(logs, entry, i) in TraceEvents(logs, entry)
      {
        assert IsEventOf(logs, entry, OwnEvent(logs, entry, i), i);
        EventsOfTrace(logs, entry, OwnEvent(logs, entry, i));
      }
      forall e | e in TraceEvents(logs, entry)
        ensures e.Leave? || exists i | 0 <= i < |logs| :: e == OwnEvent(logs, entry, i)
      {
        EventsOfTrace(logs, entry, e);
      }
    }
  }

  /** The tables of the code that a frame runs have an entry for `pc`, or one of them is missing. */
  predicate HasEntry(env: Env, who: FrameId, pc: nat) {
    var code := if who.isConstructionCall then env.CodeAt(who.target).construction else env.CodeAt(who.target).runtime;
    || code.pcToIdx == None
    || code.sourceMap == None
    || (pc in code.pcToIdx.value && code.pcToIdx.value[pc] < |code.sourceMap.value|)
  }

  /** Where depth rises behind log `i`, it rises by one, behind one of the six opcodes, and the target
      of the call or create is there. */
  ghost predicate RiseIsCall(logs: Logs, i: nat)
    requires i < |logs|
  {
    i + 1 < |logs| && logs[i].depth < logs[i + 1].depth ==>
      && logs[i + 1].depth == logs[i].depth + 1
      && (|| (logs[i].op in {CALL, CALLCODE, DELEGATECALL, STATICCALL} && 2 <= |logs[i].stack|)
          || (logs[i].op in {CREATE, CREATE2} && CreatesAddress(logs, i)))
  }

  /** The traces that do not throw, from the logs and the tables alone. */
  lemma {:induction false} AcceptsByName(env: Env, logs: Logs, entry: FrameId)
    ensures Accepts(env, logs, entry)
            <==> && 0 < |logs|
                 && (forall i | 0 <= i < |logs| :: logs[0].depth <= logs[i].depth)
                 && (forall i | 0 <= i < |logs| :: RiseIsCall(logs, i))
                 && (forall i | 0 <= i < |logs| :: HasEntry(env, FrameOf(logs, entry, i), logs[i].pc))
  {
    AcceptsByLog(env, logs, entry);
    forall i | 0 <= i < |logs|
      ensures RiseIsCall(logs, i) <==> RiseOk(logs, i)
      ensures HasEntry(env, FrameOf(logs, entry, i), logs[i].pc)
              <==> Locate(env, FrameOf(logs, entry, i), logs[i].pc).Success?
    {
      RiseByName(logs, i);
      LocateByName(env, FrameOf(logs, entry, i), logs[i].pc);
    }
  }

  lemma {:induction false} RiseByName(logs: Logs, i: nat)
    requires i < |logs|
    ensures RiseIsCall(logs, i) <==> RiseOk(logs, i)
  {
    OpensByName(logs, i);
  }

  lemma {:induction false} LocateByName(env: Env, who: FrameId, pc: nat)
    ensures HasEntry(env, who, pc) <==> Locate(env, who, pc).Success?
  {}

  // ---------------------------------------------------------------------------------------------
  // Contract totals.

  function FrameTotalOf(contract: Option<Address>): Event -> int {
    (e: Event) => if e.Leave? && (contract.None? || contract.value == e.callee.target) then FrameTotal(e) else 0
  }

  lemma {:induction false} FrameTotalsAreSum(evs: seq<Event>, contract: Option<Address>)
    ensures FrameTotals(evs, contract) == EventSum(evs, FrameTotalOf(contract))
  {
    if evs != [] {
      FrameTotalsAreSum(evs[..|evs| - 1], contract);
    }
  }

  /** Over the opening logs from `a` on whose frame runs at the contract and returns: first gas less
      last gas plus last cost. */
  function TotalByLog(logs: Logs, contract: Option<Address>, a: nat): int
    requires a <= |logs|
    decreases |logs| - a
  {
    if a == |logs| then 0
    else
      TotalByLog(logs, contract, a + 1)
      + if Returns(logs, a) && (contract.None? || contract.value == CalleeOf(logs, a).target) then
          var r := ReturnOf(logs, a);
          logs[a + 1].gas - logs[r - 1].gas + GetGasCost(logs[r - 1], Some(logs[r]))
        else 0
  }

  lemma {:induction false} TotalSumByLog(logs: Logs, entry: FrameId, contract: Option<Address>, a: nat)
    requires a <= |logs|
    ensures LogSum(logs, entry, FrameTotalOf(contract), a, |logs|) == TotalByLog(logs, contract, a)
    decreases |logs| - a
  {
    if a < |logs| {
      TotalSumByLog(logs, entry, contract, a + 1);
    }
  }

  lemma {:induction false} TotalsByLog(logs: Logs, entry: FrameId, contract: Option<Address>)
    requires DepthsOk(logs)
    ensures FrameTotals(TraceEvents(logs, entry), contract) == TotalByLog(logs, contract, 0)
  {
    FrameTotalsAreSum(TraceEvents(logs, entry), contract);
    TreeSumIsLogSum(logs, entry, FrameTotalOf(contract));
    TotalSumByLog(logs, entry, contract, 0);
  }

  // ---------------------------------------------------------------------------------------------
  // Charges.

  function ChargeIn(env: Env, only: Option<Address>, account: Account): Event -> int {
    (e: Event) =>
      if e.Enter? || !Passes(only, e.who.target) then 0
      else
        var c := ChargeOf(env, e);
        if CountsFor(account, c) then c.amount else 0
  }

  lemma {:induction false} BalanceIsSum(env: Env, only: Option<Address>, account: Account, evs: seq<Event>)
    ensures Balance(account, Recorded(env, only, evs)) == EventSum(evs, ChargeIn(env, only, account))
  {
    if evs != [] {
      var before, e := evs[..|evs| - 1], evs[|evs| - 1];
      BalanceIsSum(env, only, account, before);
      BalanceOfEvent(env, only, account, before, e);
      assert evs == before + [e];
    }
  }

  lemma {:induction false} BalanceOfEvent(env: Env, only: Option<Address>, account: Account, evs: seq<Event>, e: Event)
    ensures Balance(account, Recorded(env, only, evs + [e]))
            == Balance(account, Recorded(env, only, evs)) + ChargeIn(env, only, account)(e)
  {
    RecordedPush(env, only, evs, e);
    if RecordOf(env, only, e) == [] {
      assert Recorded(env, only, evs) + [] == Recorded(env, only, evs);
    } else {
      BalancePush(account, Recorded(env, only, evs), ChargeOf(env, e));
    }
  }

  /** The one charge that log `i` causes, if any: the drop in gas over the call it makes, once that
      returns, or else its own cost. */
  function ChargeByLog(env: Env, logs: Logs, entry: FrameId, i: nat): Option<Charge>
    requires i < |logs|
  {
    var who := FrameOf(logs, entry, i);
    var pc := logs[i].pc;
    if Returns(logs, i) then
      Some(Charge(who.target, BucketOf(env, who, pc, true), logs[i].gas - logs[ReturnOf(logs, i)].gas, true))
    else if Opens(logs, i) then
      None
    else
      Some(Charge(who.target, BucketOf(env, who, pc, false), CostAt(logs, i), false))
  }

  lemma {:induction false} ChargesMembers(env: Env, evs: seq<Event>, c: Charge)
    ensures c in Charges(env, evs) <==> exists e | e in evs :: !e.Enter? && c == ChargeOf(env, e)
  {
    if evs != [] {
      var before, e := evs[..|evs| - 1], evs[|evs| - 1];
      ChargesMembers(env, before, c);
      assert evs == before + [e];
    }
  }

  lemma {:induction false} SelectMembers(cs: seq<Charge>, only: Option<Address>, c: Charge)
    ensures c in Select(cs, only) <==> c in cs && Passes(only, c.target)
  {
    if cs != [] {
      var before, last := cs[..|cs| - 1], cs[|cs| - 1];
      SelectMembers(before, only, c);
      assert cs == before + [last];
    }
  }

  lemma {:induction false} ChargeOfEvent(env: Env, logs: Logs, entry: FrameId, i: nat)
    requires i < |logs|
    ensures Returns(logs, i) ==> ChargeByLog(env, logs, entry, i) == Some(ChargeOf(env, ReturnEvent(logs, entry, i)))
    ensures !Opens(logs, i) ==> ChargeByLog(env, logs, entry, i) == Some(ChargeOf(env, OwnEvent(logs, entry, i)))
    ensures OwnEvent(logs, entry, i).Enter? <==> Opens(logs, i)
  {}

  /** What a run records are exactly the charges of the logs that the filter lets through. */
  lemma {:induction false} ChargesOfTrace(env: Env, only: Option<Address>, logs: Logs, entry: FrameId, c: Charge)
    requires DepthsOk(logs)
    ensures c in Recorded(env, only, TraceEvents(logs, entry))
            <==> Passes(only, c.target) && exists i | 0 <= i < |logs| :: ChargeByLog(env, logs, entry, i) == Some(c)
  {
    var evs := TraceEvents(logs, entry);
    SelectMembers(Charges(env, evs), only, c);
    ChargesMembers(env, evs, c);
    forall e | e in evs && !e.Enter? && c == ChargeOf(env, e)
      ensures exists i | 0 <= i < |logs| :: ChargeByLog(env, logs, entry, i) == Some(c)
    {
      EventsOfTrace(logs, entry, e);
      var i :| 0 <= i < |logs| && IsEventOf(logs, entry, e, i);
      ChargeOfEvent(env, logs, entry, i);
    }
    forall i | 0 <= i < |logs| && ChargeByLog(env, logs, entry, i) == Some(c)
      ensures exists e | e in evs :: !e.Enter? && c == ChargeOf(env, e)
    {
      ChargeOfEvent(env, logs, entry, i);
      var e := if Returns(logs, i) then ReturnEvent(logs, entry, i) else OwnEvent(logs, entry, i);
      assert IsEventOf(logs, entry, e, i);
      EventsOfTrace(logs, entry, e);
    }
  }

  /** What it adds to an account. */
  function AmountByLog(env: Env, only: Option<Address>, account: Account, logs: Logs, entry: FrameId, i: nat): int
    requires i < |logs|
  {
    var c := ChargeByLog(env, logs, entry, i);
    if c.Some? && Passes(only, c.value.target) && CountsFor(account, c.value) then c.value.amount else 0
  }

  function BalanceFrom(env: Env, only: Option<Address>, account: Account, logs: Logs, entry: FrameId, a: nat): int
    requires a <= |logs|
    decreases |logs| - a
  {
    if a == |logs| then 0
    else AmountByLog(env, only, account, logs, entry, a) + BalanceFrom(env, only, account, logs, entry, a + 1)
  }

  lemma {:induction false} ChargeOfLog(env: Env, only: Option<Address>, account: Account, logs: Logs, entry: FrameId,
                                       i: nat)
    requires i < |logs|
    ensures LogAmount(logs, entry, ChargeIn(env, only, account), i) == AmountByLog(env, only, account, logs, entry, i)
  {
    ChargeOfEvent(env, logs, entry, i);
  }

  lemma {:induction false} BalanceSumByLog(env: Env, only: Option<Address>, account: Account, logs: Logs,
                                           entry: FrameId, a: nat)
    requires a <= |logs|
    ensures LogSum(logs, entry, ChargeIn(env, only, account), a, |logs|)
            == BalanceFrom(env, only, account, logs, entry, a)
    decreases |logs| - a
  {
    if a < |logs| {
      BalanceSumByLog(env, only, account, logs, entry, a + 1);
      ChargeOfLog(env, only, account, logs, entry, a);
    }
  }

  lemma {:induction false} BalanceByLog(env: Env, only: Option<Address>, account: Account, logs: Logs, entry: FrameId)
    requires DepthsOk(logs)
    ensures Balance(account, Recorded(env, only, TraceEvents(logs, entry)))
            == BalanceFrom(env, only, account, logs, entry, 0)
  {
    BalanceIsSum(env, only, account, TraceEvents(logs, entry));
    TreeSumIsLogSum(logs, entry, ChargeIn(env, only, account));
    BalanceSumByLog(env, only, account, logs, entry, 0);
  }

  // ---------------------------------------------------------------------------------------------
  // What a returned frame adds, by the name of its last opcode.

  /** First gas less last gas, and the last cost, unless the last opcode halts at a negative cost. */
  lemma {:induction false} FrameTotalByName(logs: Logs, entry: FrameId, a: nat)
    requires a < |logs| && Returns(logs, a)
    ensures var last := logs[ReturnOf(logs, a) - 1];
            FrameTotal(ReturnEvent(logs, entry, a))
            == logs[a + 1].gas - last.gas
               + if last.op in {RETURN, REVERT, STOP} && last.gasCost < 0 then 0 else last.gasCost
  {
    var r := ReturnOf(logs, a);
    NoneBelowBefore(logs, a + 1, logs[a].depth + 1);
    assert logs[r].depth < logs[r - 1].depth;
    GasCostByName(logs[r - 1], Some(logs[r]));
  }
}
