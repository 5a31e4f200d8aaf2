/** The profiler's tables, and what it means that they report some events. */
module Report {
  import opened Wrappers
  import opened Trace
  import opened Lookup
  import opened CallTree
  import opened Ledger
  import opened Conservation

  datatype Contract = Contract(totalGasCost: int, synthGasCost: int)

  datatype Source = Source(lineGas: map<nat, int>, linesWithCalls: set<nat>)

  /** The two dictionaries of the profiler: contracts by address, sources by id. */
  datatype Tables = Tables(contractByAddr: map<Address, Contract>, sourceById: map<Num, Source>) {

    function TotalOf(a: Address): int {
      if a in contractByAddr then contractByAddr[a].totalGasCost else 0
    }

    function SynthOf(a: Address): int {
      if a in contractByAddr then contractByAddr[a].synthGasCost else 0
    }

    function LinesOf(s: Num): map<nat, int> {
      if s in sourceById then sourceById[s].lineGas else map[]
    }

    function CallsOf(s: Num): set<nat> {
      if s in sourceById then sourceById[s].linesWithCalls else {}
    }

    /** What has not been met yet is shown as an empty table. */
    function MeetContract(a: Address): Tables {
      if a in contractByAddr then this else this.(contractByAddr := contractByAddr[a := Contract(0, 0)])
    }

    function MeetSource(s: Option<Num>): Tables {
      if s.None? || s.value in sourceById then this
      else this.(sourceById := sourceById[s.value := Source(map[], {})])
    }

    predicate Knows(c: Charge) {
      && c.target in contractByAddr
      && (c.bucket.Line? ==> c.bucket.source in sourceById)
    }

    function AddTotal(a: Address, amount: int): Tables
      requires a in contractByAddr
    {
      var c := contractByAddr[a];
      this.(contractByAddr := contractByAddr[a := c.(totalGasCost := c.totalGasCost + amount)])
    }

    function Record(c: Charge): Tables
      requires Knows(c)
    {
      match c.bucket
      case Line(s, line) =>
        var source := sourceById[s];
        var marks := if c.isCall then source.linesWithCalls + {line} else source.linesWithCalls;
        this.(sourceById := sourceById[s := Source(AddToLine(source.lineGas, line, c.amount), marks)])
      case Synth =>
        var contract := contractByAddr[c.target];
        this.(contractByAddr :=
          contractByAddr[c.target := contract.(synthGasCost := contract.synthGasCost + c.amount)])
      case Unattributed => this
    }

    /** The tables are the folds over these frame totals and charges. */
    ghost predicate Report(evs: seq<Event>, cs: seq<Charge>) {
      && (forall a :: TotalOf(a) == FrameTotals(evs, Some(a)))
      && (forall a :: SynthOf(a) == Balance(OfSynth(a), cs))
      && (forall s :: LinesOf(s) == LineGas(cs, s))
      && (forall s :: CallsOf(s) == LinesWithCalls(cs, s))
    }

    /** What is printed: the entry contract's total is overwritten with its outermost frame's. */
    ghost predicate FinalReport(logs: Logs, entry: FrameId, evs: seq<Event>, cs: seq<Charge>)
      requires 0 < |logs|
    {
      && (forall a :: TotalOf(a) == if a == entry.target then EntryTotal(logs) else FrameTotals(evs, Some(a)))
      && (forall a :: SynthOf(a) == Balance(OfSynth(a), cs))
      && (forall s :: LinesOf(s) == LineGas(cs, s))
      && (forall s :: CallsOf(s) == LinesWithCalls(cs, s))
    }
  }

  /** The contracts met while these events happen: the entry contract and all callees. */
  function Met(entry: FrameId, evs: seq<Event>): set<Address> {
    if evs == [] then {entry.target}
    else
      var e := evs[|evs| - 1];
      Met(entry, evs[..|evs| - 1]) + if e.Enter? then {e.callee.target} else {}
  }

  lemma {:induction false} MetPush(entry: FrameId, evs: seq<Event>, e: Event)
    ensures Met(entry, evs + [e]) == Met(entry, evs) + if e.Enter? then {e.callee.target} else {}
  {
    assert (evs + [e])[..|evs|] == evs;
  }

  /** What the profiler does to its tables when an event happens. */
  function After(env: Env, only: Option<Address>, t: Tables, e: Event): Tables
    requires e.Leave? ==> e.callee.target in t.contractByAddr
    requires !e.Enter? ==> t.Knows(ChargeOf(env, e))
  {
    var totalled := if e.Leave? then t.AddTotal(e.callee.target, FrameTotal(e)) else t;
    if !e.Enter? && Passes(only, e.who.target) then totalled.Record(ChargeOf(env, e)) else totalled
  }

  lemma {:induction false} AfterKeepsContracts(env: Env, only: Option<Address>, t: Tables, e: Event)
    requires e.Leave? ==> e.callee.target in t.contractByAddr
    requires !e.Enter? ==> t.Knows(ChargeOf(env, e))
    ensures After(env, only, t, e).contractByAddr.Keys == t.contractByAddr.Keys
  {}

  lemma {:induction false} ReportTotal(t: Tables, evs: seq<Event>, cs: seq<Charge>, e: Event)
    requires t.Report(evs, cs) && (e.Leave? ==> e.callee.target in t.contractByAddr)
    ensures (if e.Leave? then t.AddTotal(e.callee.target, FrameTotal(e)) else t).Report(evs + [e], cs)
  {
    var t' := if e.Leave? then t.AddTotal(e.callee.target, FrameTotal(e)) else t;
    forall a ensures t'.TotalOf(a) == FrameTotals(evs + [e], Some(a)) {
      FrameTotalsPush(evs, e, Some(a));
    }
    forall a ensures t'.SynthOf(a) == Balance(OfSynth(a), cs) {
      assert t'.SynthOf(a) == t.SynthOf(a);
    }
    assert t'.sourceById == t.sourceById;
    forall s ensures t'.LinesOf(s) == LineGas(cs, s) && t'.CallsOf(s) == LinesWithCalls(cs, s) {
      assert t'.LinesOf(s) == t.LinesOf(s) && t'.CallsOf(s) == t.CallsOf(s);
    }
  }

  lemma {:induction false} ReportCharge(t: Tables, evs: seq<Event>, cs: seq<Charge>, c: Charge)
    requires t.Report(evs, cs) && t.Knows(c)
    ensures t.Record(c).Report(evs, cs + [c])
  {
    var t' := t.Record(c);
    forall a ensures t'.TotalOf(a) == FrameTotals(evs, Some(a)) {
      assert t'.TotalOf(a) == t.TotalOf(a);
    }
    forall a ensures t'.SynthOf(a) == Balance(OfSynth(a), cs + [c]) {
      BalancePush(OfSynth(a), cs, c);
    }
    forall s ensures t'.LinesOf(s) == LineGas(cs + [c], s) && t'.CallsOf(s) == LinesWithCalls(cs + [c], s) {
      LineTablesPush(cs, c, s);
      assert t.LinesOf(s) == LineGas(cs, s) && t.CallsOf(s) == LinesWithCalls(cs, s);
    }
  }

  /** One more event keeps the tables in step with the events. */
  lemma {:induction false} ReportEvent(env: Env, only: Option<Address>, t: Tables, evs: seq<Event>, e: Event)
    requires t.Report(evs, Recorded(env, only, evs))
    requires e.Leave? ==> e.callee.target in t.contractByAddr
    requires !e.Enter? ==> t.Knows(ChargeOf(env, e))
    ensures After(env, only, t, e).Report(evs + [e], Recorded(env, only, evs + [e]))
  {
    var cs := Recorded(env, only, evs);
    ReportTotal(t, evs, cs, e);
    ChargesPush(env, evs, e);
    if !e.Enter? {
      SelectPush(Charges(env, evs), ChargeOf(env, e), only);
      if Passes(only, e.who.target) {
        var totalled := if e.Leave? then t.AddTotal(e.callee.target, FrameTotal(e)) else t;
        ReportCharge(totalled, evs + [e], cs, ChargeOf(env, e));
      }
    }
  }
}
