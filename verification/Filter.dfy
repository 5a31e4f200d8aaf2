/** What the `only-address` option does to the report. */
module Filter {
  import opened Wrappers
  import opened Trace
  import opened Lookup
  import opened CallTree
  import opened Ledger
  import opened Figures
  import opened Numeric
  import opened Report
  import opened Sequences

  /** The events of the frames that run at one address. */
  function EventsAt(evs: seq<Event>, target: Address): seq<Event> {
    if evs == [] then []
    else
      var e := evs[|evs| - 1];
      var before := EventsAt(evs[..|evs| - 1], target);
      if e.who.target == target then before + [e] else before
  }

  /** The filtered report charges what the unfiltered one charges to the frames at that address,
      and nothing else. */
  lemma {:induction false} FilterKeepsFramesAt(env: Env, evs: seq<Event>, target: Address)
    ensures Select(Charges(env, evs), Some(target)) == Charges(env, EventsAt(evs, target))
  {
    if evs != [] {
      var (before, e) := (evs[..|evs| - 1], evs[|evs| - 1]);
      FilterKeepsFramesAt(env, before, target);
      ChargesPush(env, EventsAt(before, target), e);
      if !e.Enter? {
        SelectPush(Charges(env, before), ChargeOf(env, e), Some(target));
      }
    }
  }

  /** The sum of an account over one filtered report per address. */
  function SumOverTargets(account: Account, cs: seq<Charge>, targets: seq<Address>): int {
    if targets == [] then 0
    else Balance(account, Select(cs, Some(targets[0]))) + SumOverTargets(account, cs, targets[1..])
  }

  function Occurrences(targets: seq<Address>, a: Address): nat {
    if targets == [] then 0 else (if targets[0] == a then 1 else 0) + Occurrences(targets[1..], a)
  }

  lemma {:induction false} SumOverTargetsPush(account: Account, cs: seq<Charge>, c: Charge, targets: seq<Address>)
    requires Occurrences(targets, c.target) <= 1
    ensures SumOverTargets(account, cs + [c], targets)
            == SumOverTargets(account, cs, targets)
               + if Occurrences(targets, c.target) == 1 && CountsFor(account, c) then c.amount else 0
  {
    if targets != [] {
      OneReportPush(account, cs, c, targets[0]);
      SumOverTargetsPush(account, cs, c, targets[1..]);
    }
  }

  lemma {:induction false} OneReportPush(account: Account, cs: seq<Charge>, c: Charge, target: Address)
    ensures Balance(account, Select(cs + [c], Some(target)))
            == Balance(account, Select(cs, Some(target)))
               + if c.target == target && CountsFor(account, c) then c.amount else 0
  {
    SelectPush(cs, c, Some(target));
    BalancePush(account, Select(cs, Some(target)), c);
  }

  lemma {:induction false} SumOverNoCharges(account: Account, targets: seq<Address>)
    ensures SumOverTargets(account, [], targets) == 0
  {
    if targets != [] {
      SumOverNoCharges(account, targets[1..]);
    }
  }

  lemma {:induction false} NoFilterSelectsAll(cs: seq<Charge>)
    ensures Select(cs, None) == cs
  {
    if cs != [] {
      NoFilterSelectsAll(cs[..|cs| - 1]);
    }
  }

  /** Adding up the filtered reports of any list that names every charged address once recovers
      the unfiltered report, figure by figure. */
  lemma {:induction false} FilteredReportsAddUp(account: Account, cs: seq<Charge>, targets: seq<Address>)
    requires forall c | c in cs :: Occurrences(targets, c.target) == 1
    ensures SumOverTargets(account, cs, targets) == Balance(account, cs)
  {
    if cs == [] {
      SumOverNoCharges(account, targets);
    } else {
      var (before, c) := (cs[..|cs| - 1], cs[|cs| - 1]);
      assert cs == before + [c] && c in cs;
      FilteredReportsAddUp(account, before, targets);
      SumOverTargetsPush(account, before, c, targets);
    }
  }

  /** The figures of one line, one per filtered report, as they are stored. */
  function SumOfStored(cs: seq<Charge>, source: Num, line: nat, targets: seq<Address>): int {
    if targets == [] then 0
    else Stored(LineGas(Select(cs, Some(targets[0])), source), line) + SumOfStored(cs, source, line, targets[1..])
  }

  lemma {:induction false} StoredSumsAreCongruent(cs: seq<Charge>, source: Num, line: nat, targets: seq<Address>)
    ensures Congruent(SumOfStored(cs, source, line, targets), SumOverTargets(OfLine(source, line), cs, targets))
  {
    if targets != [] {
      StoredIsCongruent(Select(cs, Some(targets[0])), source, line);
      StoredSumsAreCongruent(cs, source, line, targets[1..]);
      CongruentSum(
        Stored(LineGas(Select(cs, Some(targets[0])), source), line),
        Balance(OfLine(source, line), Select(cs, Some(targets[0]))),
        SumOfStored(cs, source, line, targets[1..]),
        SumOverTargets(OfLine(source, line), cs, targets[1..]));
    }
  }

  lemma {:induction false} CongruentSum(x: int, x': int, y: int, y': int)
    requires Congruent(x, x') && Congruent(y, y')
    ensures Congruent(x + y, x' + y')
  {}

  lemma {:induction false} CongruentVia(x: int, y: int, z: int)
    requires Congruent(x, z) && Congruent(y, z)
    ensures Congruent(x, y)
  {}

  /** The line figures that the filtered reports print add up to the printed unfiltered figure modulo
      2^32, which is where truncation leaves them. */
  lemma {:induction false} FilteredLinesAddUp(cs: seq<Charge>, source: Num, line: nat, targets: seq<Address>)
    requires forall c | c in cs :: Occurrences(targets, c.target) == 1
    ensures Congruent(SumOfStored(cs, source, line, targets), Stored(LineGas(cs, source), line))
  {
    StoredSumsAreCongruent(cs, source, line, targets);
    FilteredReportsAddUp(OfLine(source, line), cs, targets);
    StoredIsCongruent(cs, source, line);
    CongruentVia(SumOfStored(cs, source, line, targets), Stored(LineGas(cs, source), line),
      Balance(OfLine(source, line), cs));
  }

  /** A line is marked as making calls if and only if the filtered report of some address marks it. */
  lemma {:induction false} FilteredMarksAddUp(cs: seq<Charge>, source: Num, line: nat)
    ensures line in LinesWithCalls(cs, source)
            <==> exists target: Address :: line in LinesWithCalls(Select(cs, Some(target)), source)
  {
    if cs != [] {
      var before, c := cs[..|cs| - 1], cs[|cs| - 1];
      assert cs == before + [c];
      FilteredMarksAddUp(before, source, line);
      LineTablesPush(before, c, source);
      forall target: Address
        ensures line in LinesWithCalls(Select(cs, Some(target)), source)
                <==> || line in LinesWithCalls(Select(before, Some(target)), source)
                     || (c.target == target && c.isCall && c.bucket == Line(source, line))
      {
        SelectPush(before, c, Some(target));
        LineTablesPush(Select(before, Some(target)), c, source);
      }
      if c.isCall && c.bucket == Line(source, line) {
        assert line in LinesWithCalls(Select(cs, Some(c.target)), source);
      } else {
        assert forall target: Address ::
            line in LinesWithCalls(Select(cs, Some(target)), source)
            <==> line in LinesWithCalls(Select(before, Some(target)), source);
      }
    }
  }

  lemma {:induction false} FilteredSynth(cs: seq<Charge>, target: Address, a: Address)
    ensures Balance(OfSynth(a), Select(cs, Some(target))) == if a == target then Balance(OfSynth(a), cs) else 0
  {
    if cs != [] {
      var before, c := cs[..|cs| - 1], cs[|cs| - 1];
      assert cs == before + [c];
      FilteredSynth(before, target, a);
      OneReportPush(OfSynth(a), before, c, target);
    }
  }

  /** Two runs over the same trace, one with the filter and one without: contract totals agree, the
      synthetic gas of the filtered address agrees and that of others is nought, and the lines show
      what the frames at that address alone would have charged, and which of them make calls. */
  lemma {:induction false} FilteredReport(env: Env, logs: Logs, entry: FrameId, evs: seq<Event>, target: Address,
                                          filtered: Tables, full: Tables)
    requires 0 < |logs|
    requires filtered.FinalReport(logs, entry, evs, Recorded(env, Some(target), evs))
    requires full.FinalReport(logs, entry, evs, Recorded(env, None, evs))
    ensures forall a :: filtered.TotalOf(a) == full.TotalOf(a)
    ensures forall a :: filtered.SynthOf(a) == if a == target then full.SynthOf(a) else 0
    ensures forall s :: filtered.LinesOf(s) == LineGas(Charges(env, EventsAt(evs, target)), s)
    ensures forall s :: filtered.CallsOf(s) == LinesWithCalls(Charges(env, EventsAt(evs, target)), s)
    ensures forall s :: filtered.CallsOf(s) <= full.CallsOf(s)
  {
    NoFilterSelectsAll(Charges(env, evs));
    FilterKeepsFramesAt(env, evs, target);
    forall a ensures filtered.SynthOf(a) == if a == target then full.SynthOf(a) else 0 {
      FilteredSynth(Charges(env, evs), target, a);
    }
    forall s, line | line in filtered.CallsOf(s) ensures line in full.CallsOf(s) {
      FilteredMarksAddUp(Charges(env, evs), s, line);
    }
  }

  // ---------------------------------------------------------------------------------------------
  // The contracts in the report are all the addresses that a filter can be set to.

  lemma {:induction false} MetMembers(entry: FrameId, evs: seq<Event>, a: Address)
    ensures a in Met(entry, evs) <==> a == entry.target || exists e | e in evs :: e.Enter? && e.callee.target == a
  {
    if evs != [] {
      var before, e := evs[..|evs| - 1], evs[|evs| - 1];
      assert evs == before + [e];
      MetMembers(entry, before, a);
    }
  }

  /** The report lists the entry contract and whatever some log calls or creates. */
  lemma {:induction false} MetByLog(logs: Logs, entry: FrameId, a: Address)
    requires DepthsOk(logs)
    ensures a in Met(entry, TraceEvents(logs, entry))
            <==> a == entry.target || exists i | 0 <= i < |logs| :: Opens(logs, i) && CalleeOf(logs, i).target == a
  {
    var evs := TraceEvents(logs, entry);
    MetMembers(entry, evs, a);
    forall e | e in evs && e.Enter? && e.callee.target == a
      ensures exists i | 0 <= i < |logs| :: Opens(logs, i) && CalleeOf(logs, i).target == a
    {
      EventsOfTrace(logs, entry, e);
      var i :| 0 <= i < |logs| && IsEventOf(logs, entry, e, i);
      assert Opens(logs, i);
    }
    forall i | 0 <= i < |logs| && Opens(logs, i) && CalleeOf(logs, i).target == a
      ensures exists e | e in evs :: e.Enter? && e.callee.target == a
    {
      var e := OwnEvent(logs, entry, i);
      assert IsEventOf(logs, entry, e, i);
      EventsOfTrace(logs, entry, e);
    }
  }

  lemma {:induction false} ChargedIsMet(env: Env, logs: Logs, entry: FrameId, c: Charge)
    requires DepthsOk(logs) && c in Charges(env, TraceEvents(logs, entry))
    ensures c.target in Met(entry, TraceEvents(logs, entry))
  {
    NoFilterSelectsAll(Charges(env, TraceEvents(logs, entry)));
    ChargesOfTrace(env, None, logs, entry, c);
    var i :| 0 <= i < |logs| && ChargeByLog(env, logs, entry, i) == Some(c);
    assert c.target == FrameOf(logs, entry, i).target;
    MetByLog(logs, entry, c.target);
  }

  lemma {:induction false} ListedOnce(targets: seq<Address>, a: Address)
    requires NoDuplicates(targets)
    ensures Occurrences(targets, a) == if a in targets then 1 else 0
  {
    if targets != [] {
      ListedOnce(targets[1..], a);
    }
  }

  /** One filtered run per contract in the report, in any order, adds up to the unfiltered run. */
  lemma {:induction false} ReportedContractsAddUp(env: Env, logs: Logs, entry: FrameId, targets: seq<Address>,
                                                  account: Account, source: Num, line: nat)
    requires DepthsOk(logs) && NoDuplicates(targets)
    requires forall a :: a in targets <==> a in Met(entry, TraceEvents(logs, entry))
    ensures var cs := Charges(env, TraceEvents(logs, entry));
            && SumOverTargets(account, cs, targets) == Balance(account, cs)
            && Congruent(SumOfStored(cs, source, line, targets), Stored(LineGas(cs, source), line))
  {
    var cs := Charges(env, TraceEvents(logs, entry));
    forall c | c in cs ensures Occurrences(targets, c.target) == 1 {
      ChargedIsMet(env, logs, entry, c);
      ListedOnce(targets, c.target);
    }
    FilteredReportsAddUp(account, cs, targets);
    FilteredLinesAddUp(cs, source, line, targets);
  }
}
