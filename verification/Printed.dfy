/** The printed tables of a run, figure by figure, as sums over the logs of the trace. */
module Printed {
  import opened Wrappers
  import opened Trace
  import opened Lookup
  import opened CallTree
  import opened Ledger
  import opened Figures
  import opened Conservation
  import opened Numeric
  import opened Report

  lemma {:induction false} MarkedLines(cs: seq<Charge>, source: Num, line: nat)
    ensures line in LinesWithCalls(cs, source) <==> exists c | c in cs :: c.isCall && c.bucket == Line(source, line)
  {
    if cs != [] {
      var before, c := cs[..|cs| - 1], cs[|cs| - 1];
      assert cs == before + [c];
      MarkedLines(before, source, line);
      LineTablesPush(before, c, source);
    }
  }

  /** Log `i` makes a call that returns, in a frame that the filter lets through, from this line. */
  predicate CallsFromLine(env: Env, only: Option<Address>, logs: Logs, entry: FrameId, i: nat, source: Num, line: nat)
    requires i < |logs|
  {
    && Returns(logs, i)
    && Passes(only, FrameOf(logs, entry, i).target)
    && BucketOf(env, FrameOf(logs, entry, i), logs[i].pc, true) == Line(source, line)
  }

  lemma {:induction false} MarksByLog(env: Env, only: Option<Address>, logs: Logs, entry: FrameId, source: Num,
                                      line: nat)
    requires DepthsOk(logs)
    ensures line in LinesWithCalls(Recorded(env, only, TraceEvents(logs, entry)), source)
            <==> exists i | 0 <= i < |logs| :: CallsFromLine(env, only, logs, entry, i, source, line)
  {
    var cs := Recorded(env, only, TraceEvents(logs, entry));
    MarkedLines(cs, source, line);
    forall c | c in cs && c.isCall && c.bucket == Line(source, line)
      ensures exists i | 0 <= i < |logs| :: CallsFromLine(env, only, logs, entry, i, source, line)
    {
      ChargesOfTrace(env, only, logs, entry, c);
      var i :| 0 <= i < |logs| && ChargeByLog(env, logs, entry, i) == Some(c);
      assert CallsFromLine(env, only, logs, entry, i, source, line);
    }
    forall i | 0 <= i < |logs| && CallsFromLine(env, only, logs, entry, i, source, line)
      ensures exists c | c in cs :: c.isCall && c.bucket == Line(source, line)
    {
      var c := ChargeByLog(env, logs, entry, i).value;
      ChargesOfTrace(env, only, logs, entry, c);
    }
  }

  /** Every figure that a run prints, from the logs alone. A contract's total is that of all its
      returned frames, the entry contract's that of the entry frame; synthetic gas is exact; line gas
      is exact up to truncation; and a line is marked for the calls made from it. */
  lemma {:induction false} PrintedByLog(env: Env, only: Option<Address>, logs: Logs, entry: FrameId, t: Tables)
    requires DepthsOk(logs)
    requires t.FinalReport(logs, entry, TraceEvents(logs, entry), Recorded(env, only, TraceEvents(logs, entry)))
    ensures forall a :: t.TotalOf(a) == if a == entry.target then EntryTotal(logs) else TotalByLog(logs, Some(a), 0)
    ensures forall a :: t.SynthOf(a) == BalanceFrom(env, only, OfSynth(a), logs, entry, 0)
    ensures forall s, line ::
              Congruent(Stored(t.LinesOf(s), line), BalanceFrom(env, only, OfLine(s, line), logs, entry, 0))
    ensures forall s, line ::
              line in t.CallsOf(s)
              <==> exists i | 0 <= i < |logs| :: CallsFromLine(env, only, logs, entry, i, s, line)
  {
    forall a ensures t.TotalOf(a) == if a == entry.target then EntryTotal(logs) else TotalByLog(logs, Some(a), 0) {
      TotalsByLog(logs, entry, Some(a));
    }
    forall a ensures t.SynthOf(a) == BalanceFrom(env, only, OfSynth(a), logs, entry, 0) {
      BalanceByLog(env, only, OfSynth(a), logs, entry);
    }
    forall s, line
      ensures Congruent(Stored(t.LinesOf(s), line), BalanceFrom(env, only, OfLine(s, line), logs, entry, 0))
    {
      StoredIsCongruent(Recorded(env, only, TraceEvents(logs, entry)), s, line);
      BalanceByLog(env, only, OfLine(s, line), logs, entry);
    }
    forall s, line
      ensures line in t.CallsOf(s)
              <==> exists i | 0 <= i < |logs| :: CallsFromLine(env, only, logs, entry, i, s, line)
    {
      MarksByLog(env, only, logs, entry, s, line);
    }
  }

  // ---------------------------------------------------------------------------------------------
  // Synthetic gas.

  /** The cost of log `i` if it is synthetic, opens no frame and runs at the contract, and the filter
      is off or set to that. */
  function SyntheticCost(only: Option<Address>, logs: Logs, entry: FrameId, contract: Address, i: nat,
                         synthetic: bool): int
    requires i < |logs|
  {
    if && synthetic
       && !Opens(logs, i)
       && FrameOf(logs, entry, i).target == contract
       && (only == None || only == Some(contract))
    then CostAt(logs, i) else 0
  }

  /** This over all logs from `i` on, those with file -1 being synthetic. */
  function SyntheticGas(env: Env, only: Option<Address>, logs: Logs, entry: FrameId, contract: Address, i: nat): int
    requires i <= |logs|
    decreases |logs| - i
  {
    if i == |logs| then 0
    else
      SyntheticGas(env, only, logs, entry, contract, i + 1)
      + SyntheticCost(only, logs, entry, contract, i, IsSynthetic(env, FrameOf(logs, entry, i), logs[i].pc))
  }

  lemma {:induction false} SyntheticOfLog(env: Env, only: Option<Address>, logs: Logs, entry: FrameId,
                                          contract: Address, i: nat)
    requires i < |logs|
    ensures AmountByLog(env, only, OfSynth(contract), logs, entry, i)
            == SyntheticCost(only, logs, entry, contract, i, IsSynthetic(env, FrameOf(logs, entry, i), logs[i].pc))
  {
    ChargeOfEvent(env, logs, entry, i);
    if Returns(logs, i) {
      CallsAreNeverSynthetic(env, ReturnEvent(logs, entry, i));
    } else if !Opens(logs, i) {
      SyntheticIff(env, logs[i], LogAt(logs, i + 1), FrameOf(logs, entry, i));
    }
  }

  lemma {:induction false} SyntheticFrom(env: Env, only: Option<Address>, logs: Logs, entry: FrameId,
                                         contract: Address, i: nat)
    requires i <= |logs|
    ensures BalanceFrom(env, only, OfSynth(contract), logs, entry, i)
            == SyntheticGas(env, only, logs, entry, contract, i)
    decreases |logs| - i
  {
    if i < |logs| {
      SyntheticFrom(env, only, logs, entry, contract, i + 1);
      SyntheticOfLog(env, only, logs, entry, contract, i);
    }
  }

  /** The synthetic gas printed for a contract is exactly this. */
  lemma {:induction false} PrintedSynthetic(env: Env, only: Option<Address>, logs: Logs, entry: FrameId, t: Tables,
                                            contract: Address)
    requires DepthsOk(logs)
    requires t.FinalReport(logs, entry, TraceEvents(logs, entry), Recorded(env, only, TraceEvents(logs, entry)))
    ensures t.SynthOf(contract) == SyntheticGas(env, only, logs, entry, contract, 0)
  {
    BalanceByLog(env, only, OfSynth(contract), logs, entry);
    SyntheticFrom(env, only, logs, entry, contract, 0);
  }
}
