/** The call tree of a trace, by recursion on the trace itself, and the continuation of a call
    stack: everything that is still to happen when the frames on the stack are resumed in turn. */
module CallTree {
  import opened Wrappers
  import opened Trace
  import opened Lookup

  /** What happens while a call tree is walked: a log runs in its frame, a log opens a callee's
      frame, or a callee's frame ends and its caller resumes at log `at`. */
  datatype Event =
    | Step(log: Log, next: Option<Log>, who: FrameId)
    | Enter(log: Log, who: FrameId, callee: FrameId)
    | Leave(call: Log, first: Log, last: Log, at: Log, who: FrameId, callee: FrameId)

  function CalleeOf(logs: Logs, a: nat): FrameId
    requires a < |logs| && Opens(logs, a)
  {
    var target := CallTargetOf(logs, a);
    FrameId(target.address.value, target.isConstructionCall)
  }

  /** The first log after the frame opened by log `a`. */
  function ReturnOf(logs: Logs, a: nat): (r: nat)
    requires a < |logs|
    ensures a < r <= |logs|
  {
    FirstBelow(logs, a + 1, logs[a].depth + 1)
  }

  /** The rest of a frame of depth `d` that is about to run log `a`, followed by `rest`. A callee's
      events come between the call and the caller's next log. */
  function Events(logs: Logs, who: FrameId, d: int, a: nat, rest: seq<Event>): seq<Event>
    requires a <= |logs|
    decreases |logs| - a
  {
    if a == |logs| || logs[a].depth < d then
      rest
    else if Opens(logs, a) then
      [Enter(logs[a], who, CalleeOf(logs, a))]
      + Events(logs, CalleeOf(logs, a), logs[a].depth + 1, a + 1, AfterCall(logs, who, d, a, rest))
    else
      [Step(logs[a], LogAt(logs, a + 1), who)] + Events(logs, who, d, a + 1, rest)
  }

  /** What follows the callee opened by log `a`: its return, if it returns, and its caller. */
  function AfterCall(logs: Logs, who: FrameId, d: int, a: nat, rest: seq<Event>): seq<Event>
    requires a < |logs| && Opens(logs, a)
    decreases |logs| - a, 0
  {
    var r := ReturnOf(logs, a);
    if r == |logs| then rest else [LeaveAt(logs, a, who)] + Events(logs, who, d, r, rest)
  }

  function LeaveAt(logs: Logs, a: nat, who: FrameId): Event
    requires a < |logs| && Opens(logs, a) && ReturnOf(logs, a) < |logs|
  {
    var r := ReturnOf(logs, a);
    Leave(logs[a], logs[a + 1], logs[r - 1], logs[r], who, CalleeOf(logs, a))
  }

  /** The whole trace, from the entry frame down. */
  function TraceEvents(logs: Logs, entry: FrameId): seq<Event>
    requires |logs| > 0
  {
    Events(logs, entry, logs[0].depth, 0, [])
  }

  ghost predicate Resolves(env: Env, e: Event) {
    !e.Leave? ==> Locate(env, e.who, e.log.pc).Success?
  }

  /** The traces the profiler gets through without throwing. */
  ghost predicate Accepts(env: Env, logs: Logs, entry: FrameId) {
    && DepthsOk(logs)
    && forall e | e in TraceEvents(logs, entry) :: Resolves(env, e)
  }

  /** A frame opens exactly where depth rises behind one of the six opcodes and the target is there:
      a second word on a call's stack, a word on the stack of the log that follows a create. */
  lemma {:induction false} OpensByName(logs: Logs, i: nat)
    requires i < |logs|
    ensures Opens(logs, i)
            <==> && i + 1 < |logs|
                 && logs[i].depth < logs[i + 1].depth
                 && (|| (logs[i].op in {CALL, CALLCODE, DELEGATECALL, STATICCALL} && 2 <= |logs[i].stack|)
                     || (logs[i].op in {CREATE, CREATE2} && CreatesAddress(logs, i)))
  {
    if logs[i].op in {CREATE, CREATE2} {
      NextAtDepthIsFirst(logs, i + 1, logs[i].depth);
    }
  }

  /** Some later log is at the same depth, and the first such log has a word on its stack. */
  ghost predicate CreatesAddress(logs: Logs, i: nat)
    requires i < |logs|
  {
    exists j | i < j < |logs| ::
      logs[j].depth == logs[i].depth && logs[j].stack != [] && NoneAtDepth(logs, i + 1, j, logs[i].depth)
  }

  ghost predicate NoneAtDepth(logs: Logs, from: nat, to: nat, depth: int)
    requires to <= |logs|
  {
    forall k | from <= k < to :: logs[k].depth != depth
  }

  lemma {:induction false} NextAtDepthIsFirst(logs: Logs, from: nat, depth: int)
    requires from <= |logs|
    ensures NoneAtDepth(logs, from, NextAtDepth(logs, from, depth), depth)
    decreases |logs| - from
  {
    if from < |logs| && logs[from].depth != depth {
      NextAtDepthIsFirst(logs, from + 1, depth);
    }
  }

  /** The frame that a call opens runs the code at the address below the gas, as a call. */
  lemma {:induction false} CalleeByName(logs: Logs, i: nat, below: seq<Address>, address: Address, gas: Address)
    requires i < |logs| && Opens(logs, i) && logs[i].op in {CALL, CALLCODE, DELEGATECALL, STATICCALL}
    requires logs[i].stack == below + [address, gas]
    ensures CalleeOf(logs, i) == FrameId(address, false)
  {
    CallTargetByName(logs, i, below, address, gas);
  }

  // ---------------------------------------------------------------------------------------------
  // Every log runs exactly once, in trace order, in the frame a backward scan finds for it.

  /** The logs run by some events, in order, each with its frame. */
  function Executed(evs: seq<Event>): seq<(Log, FrameId)> {
    if evs == [] then []
    else (if evs[0].Leave? then [] else [(evs[0].log, evs[0].who)]) + Executed(evs[1..])
  }

  /** The last log before `i` that is shallower than depth `d`; -1 if there is none. */
  function LastShallower(logs: Logs, i: nat, d: int): (p: int)
    requires i <= |logs|
    ensures -1 <= p < i
    ensures p >= 0 ==> logs[p].depth < d
  {
    if i == 0 || logs[i - 1].depth < d then i - 1 else LastShallower(logs, i - 1, d)
  }

  /** The frame of log `i` without any stack or recursion over calls: the callee of the last
      earlier log that is shallower, or the entry frame. */
  function FrameOf(logs: Logs, entry: FrameId, i: nat): FrameId
    requires i < |logs|
  {
    var p := LastShallower(logs, i, logs[i].depth);
    if p >= 0 && Opens(logs, p) then CalleeOf(logs, p) else entry
  }

  function FrameRange(logs: Logs, entry: FrameId, a: nat, e: nat): seq<(Log, FrameId)>
    requires a <= e <= |logs|
    decreases e - a
  {
    if a == e then [] else [(logs[a], FrameOf(logs, entry, a))] + FrameRange(logs, entry, a + 1, e)
  }

  lemma {:induction false} FrameRangeAt(logs: Logs, entry: FrameId, a: nat, e: nat, i: nat)
    requires a <= i < e <= |logs|
    ensures |FrameRange(logs, entry, a, e)| == e - a
    ensures FrameRange(logs, entry, a, e)[i - a] == (logs[i], FrameOf(logs, entry, i))
    decreases e - a
  {
    if a < i {
      FrameRangeAt(logs, entry, a + 1, e, i);
    } else if a + 1 < e {
      FrameRangeAt(logs, entry, a + 1, e, a + 1);
    }
  }

  lemma {:induction false} FrameRangeSplit(logs: Logs, entry: FrameId, a: nat, m: nat, e: nat)
    requires a <= m <= e <= |logs|
    ensures FrameRange(logs, entry, a, e) == FrameRange(logs, entry, a, m) + FrameRange(logs, entry, m, e)
    decreases m - a
  {
    if a < m {
      FrameRangeSplit(logs, entry, a + 1, m, e);
    }
  }

  /** Log `a` belongs to a frame of depth `d` that runs `who`. */
  ghost predicate InFrame(logs: Logs, entry: FrameId, who: FrameId, d: int, a: nat)
    requires a <= |logs|
  {
    a < |logs| ==> (logs[a].depth <= d && (logs[a].depth == d ==> FrameOf(logs, entry, a) == who))
  }

  /** The last shallower log is the same for all of a frame's logs. */
  lemma {:induction false} LastShallowerFrom(logs: Logs, a: nat, b: nat, d: int)
    requires a <= b <= |logs|
    requires forall k | a <= k < b :: d <= logs[k].depth
    ensures LastShallower(logs, b, d) == LastShallower(logs, a, d)
    decreases b - a
  {
    if a < b {
      LastShallowerFrom(logs, a, b - 1, d);
    }
  }

  /** The rest of a frame, from its log `a` on, runs every log up to its end, each in its frame. */
  ghost predicate RunsRange(logs: Logs, entry: FrameId, who: FrameId, d: int, a: nat, rest: seq<Event>)
    requires a <= |logs|
  {
    Executed(Events(logs, who, d, a, rest))
    == FrameRange(logs, entry, a, FirstBelow(logs, a, d)) + Executed(rest)
  }

  lemma {:induction false} FrameExecuted(logs: Logs, entry: FrameId, who: FrameId, d: int, a: nat, rest: seq<Event>)
    requires DepthsOk(logs) && a <= |logs|
    requires InFrame(logs, entry, who, d, a)
    ensures RunsRange(logs, entry, who, d, a, rest)
    decreases |logs| - a
  {
    if a < |logs| && logs[a].depth == d {
      NextStaysInFrame(logs, entry, a);
      FrameExecuted(logs, entry, who, d, NextInFrame(logs, a), rest);
      if Opens(logs, a) {
        FrameExecuted(logs, entry, CalleeOf(logs, a), d + 1, a + 1, AfterCall(logs, who, d, a, rest));
        RunsRangeOverCall(logs, entry, who, d, a, ReturnOf(logs, a), FirstBelow(logs, a, d), rest);
      } else {
        RunsRangeOverStep(logs, entry, who, d, a, rest);
      }
    }
  }

  lemma {:induction false} RunsRangeOverStep(logs: Logs, entry: FrameId, who: FrameId, d: int, a: nat, rest: seq<Event>)
    requires a < |logs| && logs[a].depth == d && FrameOf(logs, entry, a) == who && !Opens(logs, a)
    requires RunsRange(logs, entry, who, d, a + 1, rest)
    ensures RunsRange(logs, entry, who, d, a, rest)
  {}

  lemma {:induction false} RunsRangeOverCall(logs: Logs, entry: FrameId, who: FrameId, d: int, a: nat, r: nat,
                                             e: nat, rest: seq<Event>)
    requires a < |logs| && logs[a].depth == d && FrameOf(logs, entry, a) == who && Opens(logs, a)
    requires r == ReturnOf(logs, a) <= e <= |logs|
    requires var tail := AfterCall(logs, who, d, a, rest);
             Executed(Events(logs, CalleeOf(logs, a), d + 1, a + 1, tail))
             == FrameRange(logs, entry, a + 1, r) + Executed(tail)
    requires Executed(Events(logs, who, d, r, rest)) == FrameRange(logs, entry, r, e) + Executed(rest)
    ensures Executed(Events(logs, who, d, a, rest)) == FrameRange(logs, entry, a, e) + Executed(rest)
  {
    var first := [(logs[a], who)];
    ExecutedOfCall(logs, who, d, a, rest);
    ExecutedAfterCall(logs, who, d, a, rest);
    FrameRangeOverCall(logs, entry, a, r, e);
    FourParts(first, FrameRange(logs, entry, a + 1, r), FrameRange(logs, entry, r, e), Executed(rest));
  }

  lemma {:induction false} FourParts<T>(a: seq<T>, b: seq<T>, c: seq<T>, d: seq<T>)
    ensures a + (b + (c + d)) == a + (b + c) + d
  {}

  lemma {:induction false} ExecutedOfCall(logs: Logs, who: FrameId, d: int, a: nat, rest: seq<Event>)
    requires a < |logs| && logs[a].depth == d && Opens(logs, a)
    ensures Executed(Events(logs, who, d, a, rest))
            == [(logs[a], who)]
               + Executed(Events(logs, CalleeOf(logs, a), d + 1, a + 1, AfterCall(logs, who, d, a, rest)))
  {
    var sub := Events(logs, CalleeOf(logs, a), d + 1, a + 1, AfterCall(logs, who, d, a, rest));
    ExecutedCons(Enter(logs[a], who, CalleeOf(logs, a)), sub);
  }

  lemma {:induction false} FrameRangeOverCall(logs: Logs, entry: FrameId, a: nat, r: nat, e: nat)
    requires a < r <= e <= |logs|
    ensures FrameRange(logs, entry, a, e)
            == [(logs[a], FrameOf(logs, entry, a))]
               + (FrameRange(logs, entry, a + 1, r) + FrameRange(logs, entry, r, e))
  {
    FrameRangeSplit(logs, entry, a + 1, r, e);
  }

  lemma {:induction false} ExecutedAfterCall(logs: Logs, who: FrameId, d: int, a: nat, rest: seq<Event>)
    requires a < |logs| && Opens(logs, a)
    ensures Executed(AfterCall(logs, who, d, a, rest)) == Executed(Events(logs, who, d, ReturnOf(logs, a), rest))
  {
    if ReturnOf(logs, a) < |logs| {
      ExecutedCons(LeaveAt(logs, a, who), Events(logs, who, d, ReturnOf(logs, a), rest));
    }
  }

  lemma {:induction false} ExecutedCons(e: Event, evs: seq<Event>)
    ensures Executed([e] + evs) == (if e.Leave? then [] else [(e.log, e.who)]) + Executed(evs)
  {
    assert ([e] + evs)[1..] == evs;
  }

  /** Where a frame goes on after its log `a`: past the callee that `a` opens, if it opens one. */
  function NextInFrame(logs: Logs, a: nat): (next: nat)
    requires a < |logs|
    ensures a < next <= |logs|
  {
    if Opens(logs, a) then ReturnOf(logs, a) else a + 1
  }

  lemma {:induction false} NextStaysInFrame(logs: Logs, entry: FrameId, a: nat)
    requires DepthsOk(logs) && a < |logs|
    ensures var next := NextInFrame(logs, a);
            && InFrame(logs, entry, FrameOf(logs, entry, a), logs[a].depth, next)
            && FirstBelow(logs, a, logs[a].depth) == FirstBelow(logs, next, logs[a].depth)
            && (next < |logs| ==> logs[next].depth <= logs[a].depth)
    ensures Opens(logs, a) ==> InFrame(logs, entry, CalleeOf(logs, a), logs[a].depth + 1, a + 1)
  {
    var next := NextInFrame(logs, a);
    assert RiseOk(logs, a);
    NoneBelowBefore(logs, a + 1, logs[a].depth + 1);
    FirstBelowFrom(logs, a, next, logs[a].depth);
    if next < |logs| && logs[next].depth == logs[a].depth {
      LastShallowerFrom(logs, a, next, logs[a].depth);
    }
  }

  /** The whole walk runs each log exactly once, in order, and in the frame that owns it. */
  lemma {:induction false} EachLogRunsOnceInItsFrame(logs: Logs, entry: FrameId)
    requires DepthsOk(logs)
    ensures var run := Executed(TraceEvents(logs, entry));
            && |run| == |logs|
            && forall i | 0 <= i < |logs| :: run[i] == (logs[i], FrameOf(logs, entry, i))
  {
    FirstBelowUnique(logs, 0, logs[0].depth, |logs|);
    FrameExecuted(logs, entry, entry, logs[0].depth, 0, []);
    FrameRangeAt(logs, entry, 0, |logs|, 0);
    forall i | 0 <= i < |logs|
      ensures Executed(TraceEvents(logs, entry))[i] == (logs[i], FrameOf(logs, entry, i))
    {
      FrameRangeAt(logs, entry, 0, |logs|, i);
    }
  }

  /** With single drops, a created contract's address is read from the very log at which its frame
      is popped: it is on top of that log's stack. */
  lemma {:induction false} CreatedAddressIsReturned(logs: Logs, a: nat)
    requires SingleDrops(logs) && a < |logs| && Opens(logs, a) && IsCreate(logs[a].op)
    requires ReturnOf(logs, a) < |logs|
    ensures StackTop(logs[ReturnOf(logs, a)], 1) == Some(CalleeOf(logs, a).target)
    ensures CalleeOf(logs, a).isConstructionCall
  {
    CreateLookaheadSingleDrops(logs, a);
  }

  // ---------------------------------------------------------------------------------------------
  // The continuation of a call stack.

  /** A frame on the call stack: what it runs, the log that opened it, and its own first log.
      The latter two mean nothing for the entry frame. */
  datatype Active = Active(who: FrameId, call: Log, first: Log)

  /** All that is still to happen from log `a` on when the top of the stack runs next. */
  function Remaining(logs: Logs, bottom: int, stack: seq<Active>, a: nat): seq<Event>
    requires 0 < |stack| && a <= |logs|
    requires |stack| > 1 ==> a > 0
    decreases |stack|, 1
  {
    var d := bottom + |stack| - 1;
    Events(logs, stack[|stack| - 1].who, d, a, Resumed(logs, bottom, stack, FirstBelow(logs, a, d)))
  }

  /** What happens once the top of the stack ends at log `r`. */
  function Resumed(logs: Logs, bottom: int, stack: seq<Active>, r: nat): seq<Event>
    requires 0 < |stack| && r <= |logs|
    requires |stack| > 1 ==> r > 0
    decreases |stack|, 0
  {
    if r == |logs| || |stack| == 1 then
      []
    else
      var top := stack[|stack| - 1];
      [Leave(top.call, top.first, logs[r - 1], logs[r], stack[|stack| - 2].who, top.who)]
      + Remaining(logs, bottom, stack[..|stack| - 1], r)
  }

  lemma {:induction false} RemainingAfterPop(logs: Logs, bottom: int, stack: seq<Active>, a: nat)
    requires 1 < |stack| && 0 < a < |logs|
    requires logs[a].depth < bottom + |stack| - 1
    ensures var top := stack[|stack| - 1];
            Remaining(logs, bottom, stack, a)
            == [Leave(top.call, top.first, logs[a - 1], logs[a], stack[|stack| - 2].who, top.who)]
               + Remaining(logs, bottom, stack[..|stack| - 1], a)
  {}

  lemma {:induction false} RemainingAfterStep(logs: Logs, bottom: int, stack: seq<Active>, a: nat)
    requires 0 < |stack| && a < |logs| && (|stack| > 1 ==> a > 0)
    requires logs[a].depth == bottom + |stack| - 1 && !Opens(logs, a)
    ensures Remaining(logs, bottom, stack, a)
            == [Step(logs[a], LogAt(logs, a + 1), stack[|stack| - 1].who)] + Remaining(logs, bottom, stack, a + 1)
  {
    FirstBelowFrom(logs, a, a + 1, logs[a].depth);
  }

  lemma {:induction false} RemainingAfterPush(logs: Logs, bottom: int, stack: seq<Active>, a: nat)
    requires 0 < |stack| && a < |logs| && (|stack| > 1 ==> a > 0)
    requires logs[a].depth == bottom + |stack| - 1 && Opens(logs, a)
    ensures Remaining(logs, bottom, stack, a)
            == [Enter(logs[a], stack[|stack| - 1].who, CalleeOf(logs, a))]
               + Remaining(logs, bottom, stack + [Active(CalleeOf(logs, a), logs[a], logs[a + 1])], a + 1)
  {
    var r, d := ReturnOf(logs, a), logs[a].depth;
    var pushed := stack + [Active(CalleeOf(logs, a), logs[a], logs[a + 1])];
    NoneBelowBefore(logs, a + 1, d + 1);
    FirstBelowFrom(logs, a, r, d);
    assert pushed[..|pushed| - 1] == stack;
    var tail := Resumed(logs, bottom, stack, FirstBelow(logs, r, d));
    assert AfterCall(logs, stack[|stack| - 1].who, d, a, tail) == Resumed(logs, bottom, pushed, r);
  }
}
