/** The profiler itself: one pass over the trace with an explicit call stack, updating its tables
    and its stack in place. It is proved to compute, for every trace and every filter, the tables
    of the call tree's events, and to throw exactly on the traces that are not accepted. */
module Profiling {
  import opened Wrappers
  import opened Trace
  import opened Lookup
  import opened CallTree
  import opened Ledger
  import opened Report
  import opened Sequences

  /** An item of the call stack; `outgoing` is the source and line of the call it waits for. */
  datatype CallStackItem = CallStackItem(
    targetAddress: Address,
    isConstructionCall: bool,
    gasBefore: int,
    gasBeforeOutgoingCall: int,
    outgoingCallSource: Option<Num>,
    outgoingCallLine: Option<nat>)
  {
    function Who(): FrameId {
      FrameId(targetAddress, isConstructionCall)
    }
  }

  function MakeCallStackItem(targetAddress: Address): CallStackItem {
    CallStackItem(targetAddress, false, 0, 0, None, None)
  }

  /** The stack items remember what the frames they stand for need: a callee the gas of its first
      log, its caller the gas and the line of the call. */
  ghost predicate Remembers(env: Env, callStack: seq<CallStackItem>, active: seq<Active>) {
    && |callStack| == |active|
    && (forall k | 0 <= k < |active| :: callStack[k].Who() == active[k].who)
    && (forall k | 0 < k < |active| :: RemembersCall(env, callStack[k - 1], callStack[k], active[k]))
  }

  ghost predicate RemembersCall(env: Env, caller: CallStackItem, callee: CallStackItem, called: Active) {
    && callee.gasBefore == called.first.gas
    && caller.gasBeforeOutgoingCall == called.call.gas
    && LineBucket(env, caller.outgoingCallSource, caller.outgoingCallLine)
       == BucketOf(env, caller.Who(), called.call.pc, true)
  }

  /** Before log `i`: the events so far, continued from the call stack, are the whole call tree,
      and the tables report the events so far. */
  ghost predicate Progress(env: Env, only: Option<Address>, logs: Logs, entry: FrameId, i: nat,
                           callStack: seq<CallStackItem>, t: Tables, active: seq<Active>, evs: seq<Event>)
    requires 0 < |logs| && i <= |logs|
  {
    && 0 < |active| && active[0].who == entry
    && (|active| > 1 ==> i > 0)
    && Remembers(env, callStack, active)
    && Keeps(env, only, logs, entry, t, evs, Remaining(logs, logs[0].depth, active, i))
  }

  /** The books are kept: the tables report the events so far, and what is to come completes them. */
  ghost predicate Keeps(env: Env, only: Option<Address>, logs: Logs, entry: FrameId, t: Tables, evs: seq<Event>,
                        rest: seq<Event>)
    requires 0 < |logs|
  {
    && evs + rest == TraceEvents(logs, entry)
    && t.Report(evs, Recorded(env, only, evs))
    && t.contractByAddr.Keys == Met(entry, evs)
    && forall e | e in evs :: Resolves(env, e)
  }

  lemma {:induction false} KeepsAfter(env: Env, only: Option<Address>, logs: Logs, entry: FrameId, t: Tables,
                                      evs: seq<Event>, e: Event, rest: seq<Event>)
    requires 0 < |logs| && !e.Enter? && Keeps(env, only, logs, entry, t, evs, [e] + rest)
    requires e.Leave? ==> e.callee.target in t.contractByAddr
    requires t.Knows(ChargeOf(env, e)) && Resolves(env, e)
    ensures Keeps(env, only, logs, entry, After(env, only, t, e), evs + [e], rest)
  {
    ConcatAssociates(evs, [e], rest);
    ReportEvent(env, only, t, evs, e);
    AfterKeepsContracts(env, only, t, e);
    MetPush(entry, evs, e);
  }

  lemma {:induction false} KeepsAfterEnter(env: Env, only: Option<Address>, logs: Logs, entry: FrameId, t: Tables,
                                           evs: seq<Event>, e: Event, rest: seq<Event>)
    requires 0 < |logs| && e.Enter? && Keeps(env, only, logs, entry, t, evs, [e] + rest) && Resolves(env, e)
    ensures Keeps(env, only, logs, entry, t.MeetContract(e.callee.target), evs + [e], rest)
  {
    ConcatAssociates(evs, [e], rest);
    ReportEvent(env, only, t, evs, e);
    MeetingKeepsReport(t, None, e.callee.target, evs + [e], Recorded(env, only, evs + [e]));
    MetPush(entry, evs, e);
  }

  lemma {:induction false} ProgressAtStart(env: Env, only: Option<Address>, logs: Logs, entry: FrameId,
                                           callStack: seq<CallStackItem>, t: Tables)
    requires 0 < |logs|
    requires |callStack| == 1 && callStack[0].Who() == entry
    requires t == Tables(map[], map[]).MeetContract(entry.target)
    ensures Progress(env, only, logs, entry, 0, callStack, t, [Active(entry, logs[0], logs[0])], [])
  {}

  lemma {:induction false} ProgressAfterPop(env: Env, only: Option<Address>, logs: Logs, entry: FrameId, i: nat,
                                            callStack: seq<CallStackItem>, t: Tables, active: seq<Active>,
                                            evs: seq<Event>, e: Event)
    requires 0 < i < |logs| && Progress(env, only, logs, entry, i, callStack, t, active, evs)
    requires 1 < |active| && logs[i].depth < logs[0].depth + |active| - 1
    requires var top := active[|active| - 1];
             e == Leave(top.call, top.first, logs[i - 1], logs[i], active[|active| - 2].who, top.who)
    requires e.callee.target in t.contractByAddr && t.Knows(ChargeOf(env, e))
    ensures Progress(env, only, logs, entry, i, callStack[..|callStack| - 1], After(env, only, t, e),
                     active[..|active| - 1], evs + [e])
  {
    RemainingAfterPop(logs, logs[0].depth, active, i);
    KeepsAfter(env, only, logs, entry, t, evs, e, Remaining(logs, logs[0].depth, active[..|active| - 1], i));
  }

  lemma {:induction false} ProgressAfterStep(env: Env, only: Option<Address>, logs: Logs, entry: FrameId, i: nat,
                                             callStack: seq<CallStackItem>, t: Tables, active: seq<Active>,
                                             evs: seq<Event>, e: Event)
    requires i < |logs| && Progress(env, only, logs, entry, i, callStack, t, active, evs)
    requires logs[i].depth == logs[0].depth + |active| - 1 && !Opens(logs, i)
    requires e == Step(logs[i], LogAt(logs, i + 1), active[|active| - 1].who)
    requires t.Knows(ChargeOf(env, e)) && Resolves(env, e)
    ensures Progress(env, only, logs, entry, i + 1, callStack, After(env, only, t, e), active, evs + [e])
  {
    RemainingAfterStep(logs, logs[0].depth, active, i);
    KeepsAfter(env, only, logs, entry, t, evs, e, Remaining(logs, logs[0].depth, active, i + 1));
  }

  /** The call stack after a push: the caller remembers its call, the callee its first gas. */
  function Pushed(logs: Logs, i: nat, callStack: seq<CallStackItem>, place: Place): seq<CallStackItem>
    requires i < |logs| && Opens(logs, i) && 0 < |callStack|
  {
    var (top, callee) := (|callStack| - 1, CalleeOf(logs, i));
    callStack[..top]
    + [callStack[top].(gasBeforeOutgoingCall := logs[i].gas,
                       outgoingCallSource := place.source,
                       outgoingCallLine := place.line),
       CallStackItem(callee.target, callee.isConstructionCall, logs[i + 1].gas, 0, None, None)]
  }

  lemma {:induction false} ProgressAfterPush(env: Env, only: Option<Address>, logs: Logs, entry: FrameId, i: nat,
                                             callStack: seq<CallStackItem>, t: Tables, active: seq<Active>,
                                             evs: seq<Event>, place: Place)
    requires i < |logs| && Progress(env, only, logs, entry, i, callStack, t, active, evs)
    requires logs[i].depth == logs[0].depth + |active| - 1 && Opens(logs, i)
    requires Locate(env, active[|active| - 1].who, logs[i].pc) == Success(place)
    ensures var callee := CalleeOf(logs, i);
            Progress(env, only, logs, entry, i + 1, Pushed(logs, i, callStack, place), t.MeetContract(callee.target),
                     active + [Active(callee, logs[i], logs[i + 1])],
                     evs + [Enter(logs[i], active[|active| - 1].who, callee)])
  {
    var callee := CalleeOf(logs, i);
    var e := Enter(logs[i], active[|active| - 1].who, callee);
    var active' := active + [Active(callee, logs[i], logs[i + 1])];
    RemainingAfterPush(logs, logs[0].depth, active, i);
    KeepsAfterEnter(env, only, logs, entry, t, evs, e, Remaining(logs, logs[0].depth, active', i + 1));
    RemembersAfterPush(env, logs, i, callStack, active, place);
  }

  lemma {:induction false} RemembersAfterPush(env: Env, logs: Logs, i: nat, callStack: seq<CallStackItem>,
                                              active: seq<Active>, place: Place)
    requires i < |logs| && Opens(logs, i) && 0 < |active| && Remembers(env, callStack, active)
    requires Locate(env, active[|active| - 1].who, logs[i].pc) == Success(place)
    ensures Remembers(env, Pushed(logs, i, callStack, place),
              active + [Active(CalleeOf(logs, i), logs[i], logs[i + 1])])
  {
    var pushed := Pushed(logs, i, callStack, place);
    var active' := active + [Active(CalleeOf(logs, i), logs[i], logs[i + 1])];
    forall k | 0 < k < |active'| ensures RemembersCall(env, pushed[k - 1], pushed[k], active'[k]) {
      if k < |active| {
        assert RemembersCall(env, callStack[k - 1], callStack[k], active[k]);
      }
    }
  }

  lemma {:induction false} ProgressAfterMeeting(env: Env, only: Option<Address>, logs: Logs, entry: FrameId, i: nat,
                                                callStack: seq<CallStackItem>, t: Tables, active: seq<Active>,
                                                evs: seq<Event>, s: Option<Num>)
    requires i < |logs| && Progress(env, only, logs, entry, i, callStack, t, active, evs)
    ensures Progress(env, only, logs, entry, i, callStack, t.MeetSource(s), active, evs)
  {
    MeetingKeepsReport(t, s, entry.target, evs, Recorded(env, only, evs));
  }

  /** Before log `i`: the logs so far are as an accepted trace has them, and the stack is as high as
      the last log and the push it may have made require. */
  ghost predicate DepthsSoFar(logs: Logs, i: nat, height: nat)
    requires 0 < |logs| && i <= |logs|
  {
    && (i == 0 ==> height == 1)
    && (i > 0 ==> logs[0].depth + height - 1 == logs[i - 1].depth + if Opens(logs, i - 1) then 1 else 0)
    && (i > 0 && Opens(logs, i - 1) ==> logs[i].depth == logs[i - 1].depth + 1)
    && (forall k | 0 <= k < i :: logs[0].depth <= logs[k].depth)
    && (forall k | 0 <= k < i - 1 :: RiseOk(logs, k))
  }

  lemma {:induction false} ProgressAtEnd(env: Env, only: Option<Address>, logs: Logs, entry: FrameId,
                                         callStack: seq<CallStackItem>, t: Tables, active: seq<Active>, evs: seq<Event>)
    requires 0 < |logs| && Progress(env, only, logs, entry, |logs|, callStack, t, active, evs)
    requires DepthsSoFar(logs, |logs|, |callStack|)
    ensures Accepts(env, logs, entry) && evs == TraceEvents(logs, entry)
  {
    assert Remaining(logs, logs[0].depth, active, |logs|) == [];
    assert RiseOk(logs, |logs| - 1);
  }

  /** A log whose source-map entry is missing is not accepted. */
  lemma {:induction false} UnresolvedIsRejected(env: Env, only: Option<Address>, logs: Logs, entry: FrameId, i: nat,
                                                callStack: seq<CallStackItem>, t: Tables, active: seq<Active>,
                                                evs: seq<Event>)
    requires i < |logs| && Progress(env, only, logs, entry, i, callStack, t, active, evs)
    requires logs[i].depth == logs[0].depth + |active| - 1
    requires Locate(env, active[|active| - 1].who, logs[i].pc).Failure?
    ensures !Accepts(env, logs, entry)
  {
    var who := active[|active| - 1].who;
    var e: Event;
    if Opens(logs, i) {
      RemainingAfterPush(logs, logs[0].depth, active, i);
      e := Enter(logs[i], who, CalleeOf(logs, i));
    } else {
      RemainingAfterStep(logs, logs[0].depth, active, i);
      e := Step(logs[i], LogAt(logs, i + 1), who);
    }
    assert Remaining(logs, logs[0].depth, active, i)[0] == e;
    assert (evs + Remaining(logs, logs[0].depth, active, i))[|evs|] == e;
    assert e in TraceEvents(logs, entry) && !Resolves(env, e);
  }

  lemma {:induction false} MeetingKeepsReport(t: Tables, s: Option<Num>, a: Address, evs: seq<Event>, cs: seq<Charge>)
    requires t.Report(evs, cs)
    ensures t.MeetSource(s).Report(evs, cs) && t.MeetContract(a).Report(evs, cs)
  {
    var (t', t'') := (t.MeetSource(s), t.MeetContract(a));
    forall b
      ensures t.TotalOf(b) == t'.TotalOf(b) == t''.TotalOf(b)
      ensures t.SynthOf(b) == t'.SynthOf(b) == t''.SynthOf(b)
    {}
    forall r
      ensures t.LinesOf(r) == t'.LinesOf(r) == t''.LinesOf(r)
      ensures t.CallsOf(r) == t'.CallsOf(r) == t''.CallsOf(r)
    {}
  }

  class Profiler {
    const env: Env
    const only: Option<Address>
    const logs: Logs

    var contractByAddr: map<Address, Contract>
    var sourceById: map<Num, Source>
    var callStack: seq<CallStackItem>

    ghost function Show(): Tables
      reads this
    {
      Tables(contractByAddr, sourceById)
    }

    /** Every frame's contract and every remembered source has been met. */
    ghost predicate Valid()
      reads this
    {
      forall k | 0 <= k < |callStack| ::
        && callStack[k].targetAddress in contractByAddr
        && (callStack[k].outgoingCallSource.Some? ==> callStack[k].outgoingCallSource.value in sourceById)
    }

    constructor (env: Env, only: Option<Address>, logs: Logs)
      ensures this.env == env && this.only == only && this.logs == logs
      ensures contractByAddr == map[] && sourceById == map[] && callStack == []
    {
      this.env, this.only, this.logs := env, only, logs;
      contractByAddr, sourceById, callStack := map[], map[], [];
    }

    method GetContractWithAddr(addr: Address)
      modifies this`contractByAddr
      ensures Show() == old(Show()).MeetContract(addr)
    {
      if addr !in contractByAddr {
        contractByAddr := contractByAddr[addr := Contract(0, 0)];
      }
    }

    method GetSourceWithId(sourceId: Num)
      modifies this`sourceById
      ensures Show() == old(Show()).MeetSource(Some(sourceId))
    {
      if sourceId !in sourceById {
        sourceById := sourceById[sourceId := Source(map[], {})];
      }
    }

    method IncreaseLineGasCost(source: Option<Num>, line: Option<nat>, gasCost: int, isCall: bool)
      requires source.Some? ==> source.value in sourceById
      modifies this`sourceById
      ensures sourceById.Keys == old(sourceById).Keys
      ensures forall target | target in contractByAddr ::
                var c := Charge(target, LineBucket(env, source, line), gasCost, isCall);
                old(Show()).Knows(c) && Show() == old(Show()).Record(c)
    {
      if source.Some? && line.Some? && !env.FileOf(source.value).skip {
        var Source(lineGas, linesWithCalls) := sourceById[source.value];
        var before := if line.value in lineGas then lineGas[line.value] else 0;
        lineGas := lineGas[line.value := ToInt32(before) + gasCost];
        if isCall {
          linesWithCalls := linesWithCalls + {line.value};
        }
        sourceById := sourceById[source.value := Source(lineGas, linesWithCalls)];
      }
    }

    /** One round of the pop loop: the top frame has ended before `log`. */
    method PopCall(prevLog: Log, log: Log, ghost active: seq<Active>)
      requires Valid() && 1 < |callStack| && Remembers(env, callStack, active)
      modifies this
      ensures Valid() && callStack == old(callStack[..|callStack| - 1])
      ensures var top := active[|active| - 1];
              var e := Leave(top.call, top.first, prevLog, log, active[|active| - 2].who, top.who);
              && top.who.target in old(Show()).contractByAddr
              && old(Show()).Knows(ChargeOf(env, e))
              && Show() == After(env, only, old(Show()), e)
    {
      var n := |callStack|;
      assert RemembersCall(env, callStack[n - 2], callStack[n - 1], active[n - 1]);
      var prevTopCall := callStack[n - 1];
      callStack := callStack[..n - 1];
      var contract := contractByAddr[prevTopCall.targetAddress];
      contractByAddr := contractByAddr[prevTopCall.targetAddress := contract.(totalGasCost :=
        contract.totalGasCost + (prevTopCall.gasBefore - prevLog.gas + GetGasCost(prevLog, Some(log))))];

      var topCall := callStack[n - 2];
      var cumulativeCallCost := topCall.gasBeforeOutgoingCall - log.gas;
      if only.None? || topCall.targetAddress == only.value {
        IncreaseLineGasCost(topCall.outgoingCallSource, topCall.outgoingCallLine, cumulativeCallCost, true);
        assert topCall.targetAddress in contractByAddr;
      }
    }

    /** Source, line and synthetic flag of the log that runs in `call`; fails as the lookup throws. */
    method LocateLog(call: CallStackItem, log: Log) returns (place: Result<Place>)
      modifies this`sourceById
      ensures place == Locate(env, call.Who(), log.pc)
      ensures Show() == if place.Success? then old(Show()).MeetSource(place.value.source) else old(Show())
    {
      var info := GetSourceInfo(env.CodeAt(call.targetAddress), call.isConstructionCall, log.pc);
      match info {
        case Failure =>
          place := Failure;
        case Success(NoTables) =>
          place := Success(Place(None, None, false));
        case Success(Synthetic(_, _)) =>
          place := Success(Place(None, None, true));
        case Success(Located(sourceId, offset, _)) =>
          GetSourceWithId(sourceId);
          var lineOffsets := env.FileOf(sourceId).lineOffsets;
          var line := if lineOffsets.Some? then Some(env.closest(lineOffsets.value, offset)) else None;
          place := Success(Place(Some(sourceId), line, false));
      }
    }

    /** A call or create that opens a frame: remember the call, and push the callee. */
    method PushCall(i: nat, place: Place, target: CallTarget)
      requires Valid() && 0 < |callStack| && i < |logs| && Opens(logs, i) && target == CallTargetOf(logs, i)
      requires place.source.Some? ==> place.source.value in sourceById
      modifies this`contractByAddr, this`callStack
      ensures Valid()
      ensures Show() == old(Show()).MeetContract(CalleeOf(logs, i).target)
      ensures callStack == Pushed(logs, i, old(callStack), place)
    {
      var call := callStack[|callStack| - 1];
      call := call.(outgoingCallSource := place.source, outgoingCallLine := place.line);
      call := call.(gasBeforeOutgoingCall := logs[i].gas);
      callStack := callStack[..|callStack| - 1] + [call];

      GetContractWithAddr(target.address.value);
      var outgoingCall := MakeCallStackItem(target.address.value);
      outgoingCall := outgoingCall.(isConstructionCall := target.isConstructionCall);
      outgoingCall := outgoingCall.(gasBefore := logs[i + 1].gas);
      callStack := callStack + [outgoingCall];
    }

    /** Any other log is charged its own cost, if the filter lets its frame through. */
    method ChargeStep(i: nat, place: Place)
      requires Valid() && 0 < |callStack| && i < |logs|
      requires Locate(env, callStack[|callStack| - 1].Who(), logs[i].pc) == Success(place)
      requires place.source.Some? ==> place.source.value in sourceById
      modifies this`contractByAddr, this`sourceById
      ensures Valid()
      ensures var e := Step(logs[i], LogAt(logs, i + 1), callStack[|callStack| - 1].Who());
              old(Show()).Knows(ChargeOf(env, e)) && Show() == After(env, only, old(Show()), e)
    {
      var call := callStack[|callStack| - 1];
      var gasCost := GetGasCost(logs[i], LogAt(logs, i + 1));
      assert call.targetAddress in contractByAddr;
      if only.None? || call.targetAddress == only.value {
        if place.isSynthOp {
          var contract := contractByAddr[call.targetAddress];
          contractByAddr := contractByAddr[call.targetAddress :=
            contract.(synthGasCost := contract.synthGasCost + gasCost)];
        } else {
          IncreaseLineGasCost(place.source, place.line, gasCost, false);
        }
      }
    }

    /** The pop loop before log `i`. It throws exactly when depth falls below the entry frame; no
        pop empties the stack, and if anything is popped the top of the stack is the frame of `i`. */
    method PopReturned(i: nat, ghost entry: FrameId, ghost active: seq<Active>, ghost evs: seq<Event>)
      returns (ok: bool, ghost active': seq<Active>, ghost evs': seq<Event>)
      requires i < |logs| && Valid() && Progress(env, only, logs, entry, i, callStack, Show(), active, evs)
      modifies this
      ensures ok <==> logs[0].depth <= logs[i].depth
      ensures ok ==>
                && Valid()
                && Progress(env, only, logs, entry, i, callStack, Show(), active', evs')
                && logs[0].depth + |callStack| - 1 <= logs[i].depth
                && |callStack| <= |old(callStack)|
                && (callStack == old(callStack) || logs[0].depth + |callStack| - 1 == logs[i].depth)
    {
      active', evs' := active, evs;
      var log := logs[i];
      while log.depth - logs[0].depth < |callStack| - 1
        invariant Valid() && Progress(env, only, logs, entry, i, callStack, Show(), active', evs')
        invariant |callStack| <= |old(callStack)|
        invariant callStack == old(callStack) || log.depth - logs[0].depth <= |callStack| - 1
      {
        if |callStack| == 1 {
          return false, active', evs';
        }
        ghost var top := active'[|active'| - 1];
        ghost var e := Leave(top.call, top.first, logs[i - 1], log, active'[|active'| - 2].who, top.who);
        ghost var (stack, shown) := (callStack, Show());
        PopCall(logs[i - 1], log, active');
        ProgressAfterPop(env, only, logs, entry, i, stack, shown, active', evs', e);
        active', evs' := active'[..|active'| - 1], evs' + [e];
      }
      return true, active', evs';
    }

    /** The rest of the loop body, when the top of the stack is the frame of log `i`. */
    method ExecuteLog(i: nat, ghost entry: FrameId, ghost active: seq<Active>, ghost evs: seq<Event>)
      returns (ok: bool, ghost active': seq<Active>, ghost evs': seq<Event>)
      requires i < |logs| && Valid() && Progress(env, only, logs, entry, i, callStack, Show(), active, evs)
      requires logs[i].depth == logs[0].depth + |callStack| - 1
      modifies this
      ensures !ok ==> !Accepts(env, logs, entry)
      ensures ok ==>
                && Valid()
                && Progress(env, only, logs, entry, i + 1, callStack, Show(), active', evs')
                && logs[0].depth + |callStack| - 1 == logs[i].depth + (if Opens(logs, i) then 1 else 0)
                && (Opens(logs, i) ==> logs[i + 1].depth == logs[i].depth + 1)
    {
      active', evs' := active, evs;
      var call := callStack[|callStack| - 1];
      ghost var (stack, shown) := (callStack, Show());
      var located := LocateLog(call, logs[i]);
      if located.Failure? {
        UnresolvedIsRejected(env, only, logs, entry, i, stack, shown, active, evs);
        return false, active', evs';
      }
      ProgressAfterMeeting(env, only, logs, entry, i, stack, shown, active, evs, located.value.source);
      ok, active', evs' := RunLog(i, located.value, entry, active, evs);
    }

    /** The log runs, or opens a frame, at a known place. */
    method RunLog(i: nat, place: Place, ghost entry: FrameId, ghost active: seq<Active>, ghost evs: seq<Event>)
      returns (ok: bool, ghost active': seq<Active>, ghost evs': seq<Event>)
      requires i < |logs| && Valid() && Progress(env, only, logs, entry, i, callStack, Show(), active, evs)
      requires logs[i].depth == logs[0].depth + |callStack| - 1
      requires Locate(env, callStack[|callStack| - 1].Who(), logs[i].pc) == Success(place)
      requires place.source.Some? ==> place.source.value in sourceById
      modifies this
      ensures !ok ==> !Accepts(env, logs, entry)
      ensures ok ==>
                && Valid()
                && Progress(env, only, logs, entry, i + 1, callStack, Show(), active', evs')
                && logs[0].depth + |callStack| - 1 == logs[i].depth + (if Opens(logs, i) then 1 else 0)
                && (Opens(logs, i) ==> logs[i + 1].depth == logs[i].depth + 1)
    {
      var nextLog := LogAt(logs, i + 1);
      var target := GetCallTarget(logs[i], i, logs);
      if target.address.Some? && nextLog.Some? && nextLog.value.depth > logs[i].depth {
        if nextLog.value.depth != logs[i].depth + 1 {
          assert !RiseOk(logs, i);
          return false, active, evs;
        }
        active', evs' := OpenFrame(i, place, target, entry, active, evs);
      } else {
        evs' := RunOpcode(i, place, entry, active, evs);
        active' := active;
      }
      return true, active', evs';
    }

    method OpenFrame(i: nat, place: Place, target: CallTarget, ghost entry: FrameId, ghost active: seq<Active>,
                     ghost evs: seq<Event>)
      returns (ghost active': seq<Active>, ghost evs': seq<Event>)
      requires i < |logs| && Valid() && Progress(env, only, logs, entry, i, callStack, Show(), active, evs)
      requires logs[i].depth == logs[0].depth + |callStack| - 1
      requires Locate(env, callStack[|callStack| - 1].Who(), logs[i].pc) == Success(place)
      requires place.source.Some? ==> place.source.value in sourceById
      requires Opens(logs, i) && target == CallTargetOf(logs, i)
      modifies this
      ensures Valid() && |callStack| == |old(callStack)| + 1
      ensures Progress(env, only, logs, entry, i + 1, callStack, Show(), active', evs')
    {
      ghost var (stack, shown, who) := (callStack, Show(), callStack[|callStack| - 1].Who());
      PushCall(i, place, target);
      ProgressAfterPush(env, only, logs, entry, i, stack, shown, active, evs, place);
      active' := active + [Active(CalleeOf(logs, i), logs[i], logs[i + 1])];
      evs' := evs + [Enter(logs[i], who, CalleeOf(logs, i))];
    }

    method RunOpcode(i: nat, place: Place, ghost entry: FrameId, ghost active: seq<Active>, ghost evs: seq<Event>)
      returns (ghost evs': seq<Event>)
      requires i < |logs| && Valid() && Progress(env, only, logs, entry, i, callStack, Show(), active, evs)
      requires logs[i].depth == logs[0].depth + |callStack| - 1
      requires Locate(env, callStack[|callStack| - 1].Who(), logs[i].pc) == Success(place)
      requires place.source.Some? ==> place.source.value in sourceById
      requires !Opens(logs, i)
      modifies this
      ensures Valid() && callStack == old(callStack)
      ensures Progress(env, only, logs, entry, i + 1, callStack, Show(), active, evs')
    {
      ghost var shown := Show();
      ghost var e := Step(logs[i], LogAt(logs, i + 1), callStack[|callStack| - 1].Who());
      ChargeStep(i, place);
      ProgressAfterStep(env, only, logs, entry, i, callStack, shown, active, evs, e);
      evs' := evs + [e];
    }

    /** One round of the trace loop. */
    method HandleLog(i: nat, ghost entry: FrameId, ghost active: seq<Active>, ghost evs: seq<Event>)
      returns (ok: bool, ghost active': seq<Active>, ghost evs': seq<Event>)
      requires i < |logs| && Valid() && Progress(env, only, logs, entry, i, callStack, Show(), active, evs)
      requires DepthsSoFar(logs, i, |callStack|)
      modifies this
      ensures !ok ==> !Accepts(env, logs, entry)
      ensures ok ==>
                && Valid()
                && Progress(env, only, logs, entry, i + 1, callStack, Show(), active', evs')
                && DepthsSoFar(logs, i + 1, |callStack|)
    {
      ok, active', evs' := PopReturned(i, entry, active, evs);
      if !ok {
        return;
      }
      if |callStack| - 1 < logs[i].depth - logs[0].depth {
        assert !RiseOk(logs, i - 1);
        return false, active', evs';
      }
      assert i > 0 ==> RiseOk(logs, i - 1);
      ok, active', evs' := ExecuteLog(i, entry, active', evs');
    }

    /** The stack before the loop: the entry frame alone. */
    method Begin(entry: FrameId)
      requires 0 < |logs| && contractByAddr == map[] && sourceById == map[]
      modifies this
      ensures Valid() && |callStack| == 1
      ensures Progress(env, only, logs, entry, 0, callStack, Show(), [Active(entry, logs[0], logs[0])], [])
    {
      GetContractWithAddr(entry.target);
      var entryCall := MakeCallStackItem(entry.target);
      entryCall := entryCall.(isConstructionCall := entry.isConstructionCall);
      callStack := [entryCall];
      ProgressAtStart(env, only, logs, entry, callStack, Show());
    }

    /** After the loop, the entry contract's total is overwritten. */
    method Finish(entry: FrameId, ghost evs: seq<Event>, ghost cs: seq<Charge>)
      requires 0 < |logs| && entry.target in contractByAddr && Show().Report(evs, cs)
      modifies this`contractByAddr
      ensures Show().FinalReport(logs, entry, evs, cs)
      ensures contractByAddr.Keys == old(contractByAddr).Keys
    {
      var (firstLog, lastLog) := (logs[0], logs[|logs| - 1]);
      var total := firstLog.gas - lastLog.gas + GetGasCost(lastLog, None);
      ghost var before := Show();
      contractByAddr := contractByAddr[entry.target := contractByAddr[entry.target].(totalGasCost := total)];
      forall a ensures Show().SynthOf(a) == before.SynthOf(a) {}
      forall s ensures Show().LinesOf(s) == before.LinesOf(s) && Show().CallsOf(s) == before.CallsOf(s) {}
    }

    /** A loop that got through has seen all of the trace. */
    method Complete(entry: FrameId, ghost active: seq<Active>, ghost evs: seq<Event>)
      requires 0 < |logs| && Valid()
      requires Progress(env, only, logs, entry, |logs|, callStack, Show(), active, evs)
      requires DepthsSoFar(logs, |logs|, |callStack|)
      modifies this`contractByAddr
      ensures Accepts(env, logs, entry) && evs == TraceEvents(logs, entry)
      ensures Show().FinalReport(logs, entry, evs, Recorded(env, only, evs))
      ensures contractByAddr.Keys == Met(entry, evs)
    {
      ProgressAtEnd(env, only, logs, entry, callStack, Show(), active, evs);
      assert callStack[0].Who() == entry;
      Finish(entry, evs, Recorded(env, only, evs));
    }

    /** The whole pass over the trace. */
    method Run(entry: FrameId) returns (ok: bool)
      requires contractByAddr == map[] && sourceById == map[] && callStack == []
      modifies this
      ensures ok <==> Accepts(env, logs, entry)
      ensures ok ==>
                var evs := TraceEvents(logs, entry);
                && Show().FinalReport(logs, entry, evs, Recorded(env, only, evs))
                && contractByAddr.Keys == Met(entry, evs)
    {
      if |logs| == 0 {
        return false;
      }
      Begin(entry);
      ghost var active, evs := [Active(entry, logs[0], logs[0])], [];
      for i := 0 to |logs|
        invariant Valid() && Progress(env, only, logs, entry, i, callStack, Show(), active, evs)
        invariant DepthsSoFar(logs, i, |callStack|)
      {
        ok, active, evs := HandleLog(i, entry, active, evs);
        if !ok {
          return;
        }
      }
      Complete(entry, active, evs);
      return true;
    }
  }
}
