/** The line table is stored through JavaScript's `| 0`. When is the stored figure the true sum? */
module Numeric {
  import opened Wrappers
  import opened Trace
  import opened Lookup
  import opened CallTree
  import opened Ledger
  import opened Figures
  import opened Conservation

  predicate InInt32(x: int) {
    -0x8000_0000 <= x < 0x8000_0000
  }

  predicate Congruent(x: int, y: int) {
    (x - y) % 0x1_0000_0000 == 0
  }

  /** What `lineGas[line] | 0` reads for a line that has no entry yet. */
  function Stored(lineGas: map<nat, int>, line: nat): int {
    if line in lineGas then lineGas[line] else 0
  }

  lemma {:induction false} ToInt32OfCongruent(x: int, y: int)
    requires Congruent(x, y)
    ensures ToInt32(x) == ToInt32(y)
    ensures Congruent(ToInt32(x), y)
    ensures ToInt32(x) == y <==> InInt32(y)
  {
    ToInt32Wraps(x);
    ToInt32Wraps(y);
  }

  lemma {:induction false} ToInt32Wraps(x: int)
    ensures Congruent(ToInt32(x), x)
  {
    var turns := (x + 0x8000_0000) / 0x1_0000_0000;
    assert ToInt32(x) - x == -turns * 0x1_0000_0000;
  }

  /** Whatever the trace, a stored line figure is the true sum modulo 2^32. */
  lemma {:induction false} StoredIsCongruent(cs: seq<Charge>, source: Num, line: nat)
    ensures Congruent(Stored(LineGas(cs, source), line), Balance(OfLine(source, line), cs))
  {
    if cs != [] {
      var before := cs[..|cs| - 1];
      StoredIsCongruent(before, source, line);
      ToInt32OfCongruent(Stored(LineGas(before, source), line), Balance(OfLine(source, line), before));
    }
  }

  lemma {:induction false} LaterChargesElsewhere(cs: seq<Charge>, post: seq<Charge>, source: Num, line: nat)
    requires forall c | c in post :: c.bucket != Line(source, line)
    ensures Stored(LineGas(cs + post, source), line) == Stored(LineGas(cs, source), line)
    ensures Balance(OfLine(source, line), cs + post) == Balance(OfLine(source, line), cs)
  {
    if post == [] {
      assert cs + post == cs;
    } else {
      assert (cs + post)[..|cs + post| - 1] == cs + post[..|post| - 1];
      LaterChargesElsewhere(cs, post[..|post| - 1], source, line);
    }
  }

  lemma {:induction false} LastChargeOfLine(pre: seq<Charge>, c: Charge, source: Num, line: nat)
    requires c.bucket == Line(source, line)
    ensures Stored(LineGas(pre + [c], source), line) == Balance(OfLine(source, line), pre + [c])
            <==> InInt32(Balance(OfLine(source, line), pre))
  {
    var (stored, sum) := (Stored(LineGas(pre, source), line), Balance(OfLine(source, line), pre));
    assert ToInt32(stored) == sum <==> InInt32(sum) by {
      StoredIsCongruent(pre, source, line);
      ToInt32OfCongruent(stored, sum);
    }
    assert Stored(LineGas(pre + [c], source), line) == ToInt32(stored) + c.amount by {
      LineTablesPush(pre, c, source);
    }
    assert Balance(OfLine(source, line), pre + [c]) == sum + c.amount by {
      BalancePush(OfLine(source, line), pre, c);
    }
  }

  /** A stored line figure is the true sum exactly when the sum before the line's last charge `c`
      fits in 32 signed bits; the last addition itself is not truncated. */
  lemma {:induction false} StoredIsExactIff(pre: seq<Charge>, c: Charge, post: seq<Charge>, source: Num, line: nat)
    requires c.bucket == Line(source, line)
    requires forall p | p in post :: p.bucket != Line(source, line)
    ensures Stored(LineGas(pre + [c] + post, source), line) == Balance(OfLine(source, line), pre + [c] + post)
            <==> InInt32(Balance(OfLine(source, line), pre))
  {
    LaterChargesElsewhere(pre + [c], post, source, line);
    LastChargeOfLine(pre, c, source, line);
  }

  /** Two charges are enough for the stored figure to be wrong by 2^32. */
  lemma {:induction false} TruncationCanBite(source: Num, target: Address)
    ensures var half := Charge(target, Line(source, 0), 0x8000_0000, false);
            && Balance(OfLine(source, 0), [half, half]) == 0x1_0000_0000
            && LineGas([half, half], source) == map[0 := 0]
  {
    var half := Charge(target, Line(source, 0), 0x8000_0000, false);
    assert [] + [half] == [half] && [half] + [half] == [half, half];
    LineTablesPush([], half, source);
    LineTablesPush([half], half, source);
    BalancePush(OfLine(source, 0), [], half);
    BalancePush(OfLine(source, 0), [half], half);
  }

  /** Two opcodes of 2^31 gas each on the only line of a file. */
  function TwoHalves(): Logs {
    [ Log(1, 0x1_0000_0000, 0x8000_0000, OTHER("LOG0"), 0, []),
      Log(1, 0x8000_0000, 0x8000_0000, OTHER("LOG0"), 0, []) ]
  }

  const ONE_LINE_CODE := Code(Some(map[0 := 0]), Some([Entry(Int(0), Int(1), Int(0), None)]))

  /** The profiler gets through this trace, and prints 0 for a line that has used 2^32 gas. */
  lemma {:induction false} TruncatedTrace(env: Env)
    requires env.code == map[5 := ContractCode(ONE_LINE_CODE, Code(None, None))]
    requires env.file == map[Int(0) := SourceFile(false, Some([0]))] && env.closest([0], Int(0)) == 0
    ensures var entry := FrameId(5, false);
            var cs := Recorded(env, None, TraceEvents(TwoHalves(), entry));
            && Accepts(env, TwoHalves(), entry)
            && Balance(OfLine(Int(0), 0), cs) == 0x1_0000_0000
            && LineGas(cs, Int(0)) == map[0 := 0]
  {
    TwoHalvesIsAccepted(env);
    TwoHalvesCharges(env);
    TruncationCanBite(Int(0), 5);
  }

  lemma {:induction false} TwoHalvesIsAccepted(env: Env)
    requires env.code == map[5 := ContractCode(ONE_LINE_CODE, Code(None, None))]
    requires env.file == map[Int(0) := SourceFile(false, Some([0]))] && env.closest([0], Int(0)) == 0
    ensures Accepts(env, TwoHalves(), FrameId(5, false))
  {
    var logs, entry := TwoHalves(), FrameId(5, false);
    assert RiseOk(logs, 0) && RiseOk(logs, 1);
    OneLinePlace(env);
    AcceptsByLog(env, logs, entry);
  }

  lemma {:induction false} TwoHalvesCharges(env: Env)
    requires env.code == map[5 := ContractCode(ONE_LINE_CODE, Code(None, None))]
    requires env.file == map[Int(0) := SourceFile(false, Some([0]))] && env.closest([0], Int(0)) == 0
    ensures var half := Charge(5, Line(Int(0), 0), 0x8000_0000, false);
            Recorded(env, None, TraceEvents(TwoHalves(), FrameId(5, false))) == [half, half]
  {
    var logs, entry := TwoHalves(), FrameId(5, false);
    TwoHalvesEvents(entry);
    OneLinePlace(env);
    ChargesOfTwo(env, Step(logs[0], LogAt(logs, 1), entry), Step(logs[1], LogAt(logs, 2), entry));
  }

  lemma {:induction false} TwoHalvesEvents(entry: FrameId)
    ensures var logs := TwoHalves();
            TraceEvents(logs, entry)
            == [Step(logs[0], LogAt(logs, 1), entry), Step(logs[1], LogAt(logs, 2), entry)]
  {
    var logs := TwoHalves();
    assert Events(logs, entry, 1, 2, []) == [];
    assert Events(logs, entry, 1, 1, []) == [Step(logs[1], LogAt(logs, 2), entry)];
  }

  lemma {:induction false} OneLinePlace(env: Env)
    requires env.code == map[5 := ContractCode(ONE_LINE_CODE, Code(None, None))]
    requires env.file == map[Int(0) := SourceFile(false, Some([0]))] && env.closest([0], Int(0)) == 0
    ensures Locate(env, FrameId(5, false), 0) == Success(Place(Some(Int(0)), Some(0), false))
    ensures BucketOf(env, FrameId(5, false), 0, false) == Line(Int(0), 0)
  {}

  lemma {:induction false} ChargesOfTwo(env: Env, x: Event, y: Event)
    requires x.Step? && y.Step?
    ensures Recorded(env, None, [x, y]) == [ChargeOf(env, x), ChargeOf(env, y)]
  {
    assert Recorded(env, None, [x]) == [ChargeOf(env, x)] by {
      RecordedPush(env, None, [], x);
      assert [] + [x] == [x];
    }
    assert [x] + [y] == [x, y];
    RecordedPush(env, None, [x], y);
  }

  // ---------------------------------------------------------------------------------------------
  // A bound that a user can check on the trace.

  ghost predicate NoNegativeCharge(cs: seq<Charge>) {
    forall c | c in cs :: 0 <= c.amount
  }

  lemma {:induction false} BalanceBounds(account: Account, cs: seq<Charge>)
    requires NoNegativeCharge(cs)
    ensures 0 <= Balance(account, cs) <= Balance(Everything, cs)
  {
    if cs != [] {
      assert cs[|cs| - 1] in cs;
      BalanceBounds(account, cs[..|cs| - 1]);
    }
  }

  lemma {:induction false} SelectBounds(cs: seq<Charge>, only: Option<Address>)
    requires NoNegativeCharge(cs)
    ensures NoNegativeCharge(Select(cs, only))
    ensures Balance(Everything, Select(cs, only)) <= Balance(Everything, cs)
  {
    if cs != [] {
      var (before, c) := (cs[..|cs| - 1], cs[|cs| - 1]);
      assert c in cs;
      SelectBounds(before, only);
      BalancePush(Everything, Select(before, only), c);
    }
  }

  lemma {:induction false} ExactBelow(cs: seq<Charge>, source: Num, line: nat)
    requires NoNegativeCharge(cs) && Balance(OfLine(source, line), cs) < 0x8000_0000
    ensures Stored(LineGas(cs, source), line) == Balance(OfLine(source, line), cs)
  {
    if cs != [] {
      var before := cs[..|cs| - 1];
      assert cs[|cs| - 1] in cs;
      ExactBelow(before, source, line);
      BalanceBounds(OfLine(source, line), before);
    }
  }

  /** Costs are not negative, and no callee uses more gas than its caller loses over the call. */
  ghost predicate Frugal(evs: seq<Event>) {
    forall e | e in evs :: 0 <= Amount(e) && (e.Leave? ==> 0 <= FrameTotal(e) <= Amount(e))
  }

  lemma {:induction false} ReturnsToCaller(logs: Logs, a: nat)
    requires DepthsOk(logs) && EndsAtBottom(logs) && SingleDrops(logs)
    requires a < |logs| && Opens(logs, a)
    ensures logs[a + 1].depth == logs[a].depth + 1
    ensures a + 1 < ReturnOf(logs, a) < |logs| && logs[ReturnOf(logs, a)].depth == logs[a].depth
  {
    CallReturns(logs, a);
    assert RiseOk(logs, a) && Drop(logs, ReturnOf(logs, a) - 1) <= 1;
  }

  /** Per level of calls below it, a frame is charged at most once more what it consumes. */
  ghost predicate PaidWithin(logs: Logs, who: FrameId, d: int, a: nat, deepest: int, rest: seq<Event>)
    requires a < |logs|
  {
    && a < FirstBelow(logs, a, d)
    && WithinLevels(deepest - d, Paid(Events(logs, who, d, a, rest)) - Paid(rest),
         Consumed(logs, a, FirstBelow(logs, a, d)))
  }

  ghost predicate WithinLevels(levels: int, paid: int, consumed: int) {
    0 <= levels && 0 <= consumed && paid <= (levels + 1) * consumed
  }

  lemma {:induction false} LevelsOverCall(levels: int, sub: int, consumed: int, drop: int, rest: int, after: int)
    requires 0 < levels && consumed <= drop
    requires WithinLevels(levels - 1, sub, consumed) && WithinLevels(levels, rest, after)
    ensures WithinLevels(levels, sub + drop + rest, drop + after)
  {
    assert levels * consumed <= levels * drop;
    assert (levels + 1) * (drop + after) == levels * drop + drop + (levels + 1) * after;
  }

  lemma {:induction false} LevelsOverStep(levels: int, cost: int, rest: int, after: int)
    requires 0 <= cost && WithinLevels(levels, rest, after)
    ensures WithinLevels(levels, cost + rest, cost + after)
  {
    assert 0 <= levels * cost;
    assert (levels + 1) * (cost + after) == levels * cost + cost + (levels + 1) * after;
  }

  lemma {:induction false} FrugalTail(e: Event, evs: seq<Event>)
    requires Frugal([e] + evs)
    ensures Frugal(evs) && 0 <= Amount(e) && (e.Leave? ==> 0 <= FrameTotal(e) <= Amount(e))
  {
    assert forall x | x in evs :: x in [e] + evs;
    assert e in [e] + evs;
  }

  lemma {:induction false} FrugalRest(logs: Logs, who: FrameId, d: int, a: nat, rest: seq<Event>)
    requires a <= |logs| && Frugal(Events(logs, who, d, a, rest))
    ensures Frugal(rest)
    decreases |logs| - a
  {
    if a == |logs| || logs[a].depth < d {
    } else if Opens(logs, a) {
      var callee, tail := CalleeOf(logs, a), AfterCall(logs, who, d, a, rest);
      FrugalTail(Enter(logs[a], who, callee), Events(logs, callee, logs[a].depth + 1, a + 1, tail));
      FrugalRest(logs, callee, logs[a].depth + 1, a + 1, tail);
      if ReturnOf(logs, a) < |logs| {
        FrugalTail(LeaveAt(logs, a, who), Events(logs, who, d, ReturnOf(logs, a), rest));
        FrugalRest(logs, who, d, ReturnOf(logs, a), rest);
      }
    } else {
      FrugalTail(Step(logs[a], LogAt(logs, a + 1), who), Events(logs, who, d, a + 1, rest));
      FrugalRest(logs, who, d, a + 1, rest);
    }
  }

  lemma {:induction false} FrugalCall(logs: Logs, who: FrameId, d: int, a: nat, rest: seq<Event>)
    requires a < |logs| && d <= logs[a].depth && Opens(logs, a) && a + 1 < ReturnOf(logs, a) < |logs|
    requires Frugal(Events(logs, who, d, a, rest))
    ensures Frugal(Events(logs, CalleeOf(logs, a), logs[a].depth + 1, a + 1, AfterCall(logs, who, d, a, rest)))
    ensures Frugal(Events(logs, who, d, ReturnOf(logs, a), rest))
    ensures 0 <= Consumed(logs, a + 1, ReturnOf(logs, a)) <= logs[a].gas - logs[ReturnOf(logs, a)].gas
  {
    var callee, tail := CalleeOf(logs, a), AfterCall(logs, who, d, a, rest);
    FrugalTail(Enter(logs[a], who, callee), Events(logs, callee, logs[a].depth + 1, a + 1, tail));
    FrugalRest(logs, callee, logs[a].depth + 1, a + 1, tail);
    FrugalTail(LeaveAt(logs, a, who), Events(logs, who, d, ReturnOf(logs, a), rest));
  }

  ghost predicate AtMost(logs: Logs, deepest: int) {
    forall i | 0 <= i < |logs| :: logs[i].depth <= deepest
  }

  lemma {:induction false} FrameBound(logs: Logs, who: FrameId, d: int, a: nat, deepest: int, rest: seq<Event>)
    requires DepthsOk(logs) && EndsAtBottom(logs) && SingleDrops(logs) && Steady(logs)
    requires AtMost(logs, deepest)
    requires a < |logs| && logs[a].depth == d && Frugal(Events(logs, who, d, a, rest))
    ensures PaidWithin(logs, who, d, a, deepest, rest)
    decreases |logs| - a
  {
    if Opens(logs, a) {
      CallSetup(logs, who, d, a, deepest, rest);
      FrameBound(logs, CalleeOf(logs, a), d + 1, a + 1, deepest, AfterCall(logs, who, d, a, rest));
      FrameBound(logs, who, d, ReturnOf(logs, a), deepest, rest);
      BoundAtCall(logs, who, d, a, deepest, rest);
    } else {
      StepSetup(logs, who, d, a, deepest, rest);
      if a + 1 < |logs| && logs[a + 1].depth == d {
        FrameBound(logs, who, d, a + 1, deepest, rest);
      }
      BoundAtStep(logs, who, d, a, deepest, rest);
    }
  }

  lemma {:induction false} CallSetup(logs: Logs, who: FrameId, d: int, a: nat, deepest: int, rest: seq<Event>)
    requires DepthsOk(logs) && EndsAtBottom(logs) && SingleDrops(logs) && AtMost(logs, deepest)
    requires a < |logs| && logs[a].depth == d && Opens(logs, a) && Frugal(Events(logs, who, d, a, rest))
    ensures var r := ReturnOf(logs, a);
            && a + 1 < r < |logs|
            && logs[a + 1].depth == d + 1
            && logs[r].depth == d < deepest
            && Consumed(logs, a + 1, r) <= logs[a].gas - logs[r].gas
            && Frugal(Events(logs, CalleeOf(logs, a), d + 1, a + 1, AfterCall(logs, who, d, a, rest)))
            && Frugal(Events(logs, who, d, r, rest))
  {
    ReturnsToCaller(logs, a);
    FrugalCall(logs, who, d, a, rest);
    assert logs[a + 1].depth <= deepest;
  }

  lemma {:induction false} StepSetup(logs: Logs, who: FrameId, d: int, a: nat, deepest: int, rest: seq<Event>)
    requires DepthsOk(logs) && AtMost(logs, deepest)
    requires a < |logs| && logs[a].depth == d && !Opens(logs, a) && Frugal(Events(logs, who, d, a, rest))
    ensures d <= deepest && 0 <= CostAt(logs, a) && Frugal(Events(logs, who, d, a + 1, rest))
    ensures a + 1 < |logs| ==> logs[a + 1].depth <= d
  {
    assert RiseOk(logs, a);
    FrugalTail(Step(logs[a], LogAt(logs, a + 1), who), Events(logs, who, d, a + 1, rest));
  }

  lemma {:induction false} BoundAtCall(logs: Logs, who: FrameId, d: int, a: nat, deepest: int, rest: seq<Event>)
    requires a < |logs| && logs[a].depth == d < deepest && Opens(logs, a)
    requires a + 1 < ReturnOf(logs, a) < |logs| && logs[ReturnOf(logs, a)].depth == d
    requires Consumed(logs, a + 1, ReturnOf(logs, a)) <= logs[a].gas - logs[ReturnOf(logs, a)].gas
    requires PaidWithin(logs, CalleeOf(logs, a), d + 1, a + 1, deepest, AfterCall(logs, who, d, a, rest))
    requires PaidWithin(logs, who, d, ReturnOf(logs, a), deepest, rest)
    ensures PaidWithin(logs, who, d, a, deepest, rest)
  {
    var callee, r, tail := CalleeOf(logs, a), ReturnOf(logs, a), AfterCall(logs, who, d, a, rest);
    var sub, after := Events(logs, callee, d + 1, a + 1, tail), Events(logs, who, d, r, rest);
    NoneBelowBefore(logs, a + 1, d + 1);
    FirstBelowFrom(logs, a, r, d);
    PaidCons(Enter(logs[a], who, callee), sub);
    PaidCons(LeaveAt(logs, a, who), after);
    LevelsOverCall(deepest - d,
      Paid(sub) - Paid(tail), Consumed(logs, a + 1, r), logs[a].gas - logs[r].gas,
      Paid(after) - Paid(rest), Consumed(logs, r, FirstBelow(logs, r, d)));
  }

  lemma {:induction false} BoundAtStep(logs: Logs, who: FrameId, d: int, a: nat, deepest: int, rest: seq<Event>)
    requires a < |logs| && logs[a].depth == d <= deepest && !Opens(logs, a) && 0 <= CostAt(logs, a)
    requires a + 1 < |logs| ==> logs[a + 1].depth <= d
    requires Steady(logs)
    requires a + 1 < |logs| && logs[a + 1].depth == d ==> PaidWithin(logs, who, d, a + 1, deepest, rest)
    ensures PaidWithin(logs, who, d, a, deepest, rest)
  {
    var after := Events(logs, who, d, a + 1, rest);
    PaidCons(Step(logs[a], LogAt(logs, a + 1), who), after);
    if a + 1 < |logs| && logs[a + 1].depth == d {
      assert Drop(logs, a) == 0;
      LevelsOverStep(deepest - d, CostAt(logs, a), Paid(after) - Paid(rest),
        Consumed(logs, a + 1, FirstBelow(logs, a, d)));
    } else {
      LevelsOverStep(deepest - d, CostAt(logs, a), 0, 0);
    }
  }

  lemma {:induction false} ChargesNotNegative(env: Env, evs: seq<Event>)
    requires Frugal(evs)
    ensures NoNegativeCharge(Charges(env, evs))
  {
    if evs != [] {
      assert evs[|evs| - 1] in evs;
      ChargesNotNegative(env, evs[..|evs| - 1]);
    }
  }

  /** All charges together are at most the entry total times the number of depth levels. */
  lemma {:induction false} TraceBound(logs: Logs, entry: FrameId, deepest: int)
    requires DepthsOk(logs) && EndsAtBottom(logs) && SingleDrops(logs) && Steady(logs)
    requires forall i | 0 <= i < |logs| :: logs[i].depth <= deepest
    requires Frugal(TraceEvents(logs, entry))
    ensures Paid(TraceEvents(logs, entry)) <= (deepest - logs[0].depth + 1) * EntryTotal(logs)
  {
    FirstBelowUnique(logs, 0, logs[0].depth, |logs|);
    FrameBound(logs, entry, logs[0].depth, 0, deepest, []);
  }

  /** If the trace is well-behaved and the entry total times the number of depth levels stays below
      2^31, every line figure the profiler prints is the true sum, under any filter. */
  lemma {:induction false} StoredIsExactBelowBound(env: Env, logs: Logs, entry: FrameId, only: Option<Address>,
                                                   deepest: int, source: Num, line: nat)
    requires DepthsOk(logs) && EndsAtBottom(logs) && SingleDrops(logs) && Steady(logs)
    requires forall i | 0 <= i < |logs| :: logs[i].depth <= deepest
    requires Frugal(TraceEvents(logs, entry))
    requires (deepest - logs[0].depth + 1) * EntryTotal(logs) < 0x8000_0000
    ensures var cs := Select(Charges(env, TraceEvents(logs, entry)), only);
            Stored(LineGas(cs, source), line) == Balance(OfLine(source, line), cs)
  {
    var evs := TraceEvents(logs, entry);
    TraceBound(logs, entry, deepest);
    ChargesTotal(env, evs);
    ChargesNotNegative(env, evs);
    SelectBounds(Charges(env, evs), only);
    BalanceBounds(OfLine(source, line), Select(Charges(env, evs), only));
    ExactBelow(Select(Charges(env, evs), only), source, line);
  }
}
