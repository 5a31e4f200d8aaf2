/** Calls whose cost is reported nowhere. */
module Losses {
  import opened Wrappers
  import opened Trace
  import opened Lookup
  import opened CallTree
  import opened Ledger
  import opened Figures

  /** The instruction is in a known line of a file that is not skipped. */
  predicate KnownSite(env: Env, who: FrameId, pc: nat) {
    match GetSourceInfo(env.CodeAt(who.target), who.isConstructionCall, pc)
    case Success(Located(file, _, _)) => env.FileOf(file).lineOffsets.Some? && !env.FileOf(file).skip
    case _ => false
  }

  lemma {:induction false} BucketOfCall(env: Env, who: FrameId, pc: nat)
    ensures BucketOf(env, who, pc, true) == Unattributed <==> !KnownSite(env, who, pc)
    ensures Locate(env, who, pc).Success? && Locate(env, who, pc).value.isSynthOp ==> !KnownSite(env, who, pc)
  {}

  /** The cost of every returned call is in some line if and only if every call that returns is made
      from a known line. A call made by a synthetic instruction never is. */
  lemma {:induction false} NoCallIsLost(env: Env, logs: Logs, entry: FrameId)
    requires DepthsOk(logs)
    ensures (forall c | c in Charges(env, TraceEvents(logs, entry)) :: c.isCall ==> c.bucket.Line?)
            <==> forall i | 0 <= i < |logs| && Returns(logs, i) ::
                   KnownSite(env, FrameOf(logs, entry, i), logs[i].pc)
  {
    var evs := TraceEvents(logs, entry);
    forall i | 0 <= i < |logs| && Returns(logs, i)
      ensures var c := ChargeOf(env, ReturnEvent(logs, entry, i));
              && c in Charges(env, evs)
              && c.isCall
              && (c.bucket.Line? <==> KnownSite(env, FrameOf(logs, entry, i), logs[i].pc))
    {
      var e := ReturnEvent(logs, entry, i);
      assert IsEventOf(logs, entry, e, i);
      EventsOfTrace(logs, entry, e);
      ChargesMembers(env, evs, ChargeOf(env, e));
      BucketOfCall(env, FrameOf(logs, entry, i), logs[i].pc);
    }
    forall c | c in Charges(env, evs) && c.isCall
      ensures exists i | 0 <= i < |logs| && Returns(logs, i) :: c == ChargeOf(env, ReturnEvent(logs, entry, i))
    {
      ChargesMembers(env, evs, c);
      var e :| e in evs && !e.Enter? && c == ChargeOf(env, e);
      EventsOfTrace(logs, entry, e);
    }
  }

  /** Gas that the calls from unknown sites cost, log by log. */
  function LostFrom(env: Env, logs: Logs, entry: FrameId, a: nat): int
    requires a <= |logs|
    decreases |logs| - a
  {
    if a == |logs| then 0
    else
      LostFrom(env, logs, entry, a + 1)
      + if Returns(logs, a) && !KnownSite(env, FrameOf(logs, entry, a), logs[a].pc) then
          logs[a].gas - logs[ReturnOf(logs, a)].gas
        else 0
  }

  lemma {:induction false} LostFromIsBalance(env: Env, logs: Logs, entry: FrameId, a: nat)
    requires a <= |logs|
    ensures BalanceFrom(env, None, LostCalls, logs, entry, a) == LostFrom(env, logs, entry, a)
    decreases |logs| - a
  {
    if a < |logs| {
      LostFromIsBalance(env, logs, entry, a + 1);
      BucketOfCall(env, FrameOf(logs, entry, a), logs[a].pc);
    }
  }

  /** Exactly this much is lost. */
  lemma {:induction false} LostCallsByLog(env: Env, logs: Logs, entry: FrameId)
    requires DepthsOk(logs)
    ensures Balance(LostCalls, Recorded(env, None, TraceEvents(logs, entry))) == LostFrom(env, logs, entry, 0)
  {
    BalanceByLog(env, None, LostCalls, logs, entry);
    LostFromIsBalance(env, logs, entry, 0);
  }

  /** A contract whose one instruction has file -1 calls another, which has no source. */
  function SyntheticCall(): Logs {
    [ Log(1, 100, 0, CALL, 0, [7, 0]),
      Log(2, 80, 10, STOP, 0, []),
      Log(1, 60, 0, STOP, 0, []) ]
  }

  const SYNTHETIC_CODE := Code(Some(map[0 := 0]), Some([Entry(Int(0), Int(1), Int(-1), None)]))

  lemma {:induction false} SyntheticFrames(entry: FrameId)
    ensures DepthsOk(SyntheticCall())
    ensures FrameOf(SyntheticCall(), entry, 0) == entry == FrameOf(SyntheticCall(), entry, 2)
    ensures FrameOf(SyntheticCall(), entry, 1) == FrameId(7, false)
    ensures Opens(SyntheticCall(), 0) && ReturnOf(SyntheticCall(), 0) == 2
    ensures !Opens(SyntheticCall(), 1) && !Opens(SyntheticCall(), 2)
  {
    var logs := SyntheticCall();
    assert RiseOk(logs, 0) && RiseOk(logs, 1) && RiseOk(logs, 2);
    FirstBelowUnique(logs, 1, 2, 2);
  }

  lemma {:induction false} SyntheticCharges(env: Env)
    requires env.code == map[5 := ContractCode(SYNTHETIC_CODE, Code(None, None))]
    ensures var logs, entry := SyntheticCall(), FrameId(5, false);
            && ChargeByLog(env, logs, entry, 0) == Some(Charge(5, Unattributed, 40, true))
            && ChargeByLog(env, logs, entry, 1) == Some(Charge(7, Unattributed, 10, false))
            && ChargeByLog(env, logs, entry, 2) == Some(Charge(5, Synth, 0, false))
  {
    SyntheticFrames(FrameId(5, false));
  }

  function SyntheticSum(env: Env, account: Account): int {
    Balance(account, Recorded(env, None, TraceEvents(SyntheticCall(), FrameId(5, false))))
  }

  lemma {:induction false} SyntheticBalance(env: Env, account: Account)
    requires env.code == map[5 := ContractCode(SYNTHETIC_CODE, Code(None, None))]
    ensures SyntheticSum(env, account)
            == (if CountsFor(account, Charge(5, Unattributed, 40, true)) then 40 else 0)
               + if CountsFor(account, Charge(7, Unattributed, 10, false)) then 10 else 0
  {
    var logs, entry := SyntheticCall(), FrameId(5, false);
    SyntheticFrames(entry);
    SyntheticCharges(env);
    BalanceByLog(env, None, account, logs, entry);
    assert BalanceFrom(env, None, account, logs, entry, 3) == 0;
    assert BalanceFrom(env, None, account, logs, entry, 2) == 0;
  }

  lemma {:induction false} SyntheticIsAccepted(env: Env)
    requires env.code == map[5 := ContractCode(SYNTHETIC_CODE, Code(None, None))]
    ensures Accepts(env, SyntheticCall(), FrameId(5, false))
  {
    SyntheticFrames(FrameId(5, false));
    AcceptsByLog(env, SyntheticCall(), FrameId(5, false));
  }

  /** The profiler gets through, and shows neither the 40 gas of the call nor the 10 of the callee. */
  lemma {:induction false} SyntheticCallIsLost(env: Env)
    requires env.code == map[5 := ContractCode(SYNTHETIC_CODE, Code(None, None))]
    ensures var entry := FrameId(5, false);
            var cs := Recorded(env, None, TraceEvents(SyntheticCall(), entry));
            && Accepts(env, SyntheticCall(), entry)
            && Balance(LostCalls, cs) == 40
            && Balance(Lost, cs) == 50
            && Balance(AllLines, cs) == Balance(AllSynth, cs) == 0
  {
    SyntheticIsAccepted(env);
    assert SyntheticSum(env, LostCalls) == 40 by {
      SyntheticBalance(env, LostCalls);
    }
    assert SyntheticSum(env, Lost) == 50 by {
      SyntheticBalance(env, Lost);
    }
    assert SyntheticSum(env, AllLines) == 0 by {
      SyntheticBalance(env, AllLines);
    }
    assert SyntheticSum(env, AllSynth) == 0 by {
      SyntheticBalance(env, AllSynth);
    }
  }
}
