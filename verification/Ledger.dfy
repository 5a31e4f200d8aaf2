/** What the events of a call tree cost, and the tables the profiler prints as folds over them. */
module Ledger {
  import opened Wrappers
  import opened Trace
  import opened Lookup
  import opened CallTree

  /** Where a charge ends up. Gas with no known line, or in a skipped file, is not reported. */
  datatype Bucket = Line(source: Num, line: nat) | Synth | Unattributed

  /** `target` is the address called in the frame that is charged. */
  datatype Charge = Charge(target: Address, bucket: Bucket, amount: int, isCall: bool)

  function LineBucket(env: Env, source: Option<Num>, line: Option<nat>): Bucket {
    if source.Some? && line.Some? && !env.FileOf(source.value).skip then
      Line(source.value, line.value)
    else
      Unattributed
  }

  /** The bucket of an instruction: of its own cost, or (`inclusive`) of the call it makes. A
      synthetic instruction has no source, so an inclusive cost made by one is lost. */
  function BucketOf(env: Env, who: FrameId, pc: nat, inclusive: bool): Bucket {
    match Locate(env, who, pc)
    case Failure => Unattributed
    case Success(place) =>
      if place.isSynthOp && !inclusive then Synth else LineBucket(env, place.source, place.line)
  }

  /** The instruction's source-map entry has file -1. */
  predicate IsSynthetic(env: Env, who: FrameId, pc: nat) {
    match GetSourceInfo(env.CodeAt(who.target), who.isConstructionCall, pc)
    case Success(Synthetic(_, _)) => true
    case _ => false
  }

  /** An opcode's own cost is synthetic gas exactly for such an instruction, whatever code it is in;
      the cost of a call never is. */
  lemma {:induction false} SyntheticIff(env: Env, log: Log, next: Option<Log>, who: FrameId)
    ensures ChargeOf(env, Step(log, next, who)).bucket == Synth <==> IsSynthetic(env, who, log.pc)
  {}

  lemma {:induction false} CallsAreNeverSynthetic(env: Env, e: Event)
    requires e.Leave?
    ensures ChargeOf(env, e).bucket != Synth
  {}

  function Amount(e: Event): int {
    match e
    case Step(log, next, _) => GetGasCost(log, next)
    case Enter(_, _, _) => 0
    case Leave(call, _, _, at, _, _) => call.gas - at.gas
  }

  /** What a frame adds to its contract's total when it is popped. The last log is used for its
      gas because the 1/64 held back by the call is already back at log `at`. */
  function FrameTotal(e: Event): int {
    match e
    case Leave(_, first, last, at, _, _) => first.gas - last.gas + GetGasCost(last, Some(at))
    case _ => 0
  }

  /** The charge a log makes when it has run, or a call when it has returned. */
  function ChargeOf(env: Env, e: Event): Charge
    requires !e.Enter?
  {
    Charge(
      e.who.target,
      BucketOf(env, e.who, if e.Leave? then e.call.pc else e.log.pc, e.Leave?),
      Amount(e),
      e.Leave?)
  }

  function Charges(env: Env, evs: seq<Event>): seq<Charge> {
    if evs == [] then []
    else
      var (before, e) := (Charges(env, evs[..|evs| - 1]), evs[|evs| - 1]);
      if e.Enter? then before else before + [ChargeOf(env, e)]
  }

  function Paid(evs: seq<Event>): int {
    if evs == [] then 0 else Paid(evs[..|evs| - 1]) + Amount(evs[|evs| - 1])
  }

  /** Frame totals added up on pop: of one contract, or of all of them. */
  function FrameTotals(evs: seq<Event>, contract: Option<Address>): int {
    if evs == [] then 0
    else
      var e := evs[|evs| - 1];
      FrameTotals(evs[..|evs| - 1], contract)
      + if e.Leave? && (contract.None? || contract.value == e.callee.target) then FrameTotal(e) else 0
  }

  /** `only-address`: the charges of the frames that run at that address. */
  function Select(cs: seq<Charge>, only: Option<Address>): seq<Charge> {
    if cs == [] then []
    else
      var (before, c) := (Select(cs[..|cs| - 1], only), cs[|cs| - 1]);
      if Passes(only, c.target) then before + [c] else before
  }

  predicate Passes(only: Option<Address>, target: Address) {
    only.None? || target == only.value
  }

  /** The charges that a run under a filter has recorded. */
  function Recorded(env: Env, only: Option<Address>, evs: seq<Event>): seq<Charge> {
    Select(Charges(env, evs), only)
  }

  // ---------------------------------------------------------------------------------------------
  // Tables.

  /** The charges that count towards one figure. */
  datatype Account =
    | Everything
    | OfLine(source: Num, line: nat)
    | AllLines
    | OfSynth(contract: Address)
    | AllSynth
    | Lost
    | LostCalls

  predicate CountsFor(account: Account, c: Charge) {
    match account
    case Everything => true
    case OfLine(source, line) => c.bucket == Line(source, line)
    case AllLines => c.bucket.Line?
    case OfSynth(contract) => c.bucket.Synth? && c.target == contract
    case AllSynth => c.bucket.Synth?
    case Lost => c.bucket.Unattributed?
    case LostCalls => c.bucket.Unattributed? && c.isCall
  }

  /** The true sum of an account, as a mathematical integer. */
  function Balance(account: Account, cs: seq<Charge>): int {
    if cs == [] then 0
    else Balance(account, cs[..|cs| - 1]) + if CountsFor(account, cs[|cs| - 1]) then cs[|cs| - 1].amount else 0
  }

  /** The `| 0` of JavaScript: ToInt32. */
  function ToInt32(x: int): (r: int)
    ensures -0x8000_0000 <= r < 0x8000_0000
  {
    (x + 0x8000_0000) % 0x1_0000_0000 - 0x8000_0000
  }

  function AddToLine(lineGas: map<nat, int>, line: nat, amount: int): map<nat, int> {
    lineGas[line := ToInt32(if line in lineGas then lineGas[line] else 0) + amount]
  }

  /** The line table of one source file as it is stored, truncation included. */
  function LineGas(cs: seq<Charge>, source: Num): map<nat, int> {
    if cs == [] then map[]
    else
      var (before, c) := (LineGas(cs[..|cs| - 1], source), cs[|cs| - 1]);
      if c.bucket.Line? && c.bucket.source == source then AddToLine(before, c.bucket.line, c.amount) else before
  }

  /** The lines of one source file marked as making calls. */
  function LinesWithCalls(cs: seq<Charge>, source: Num): set<nat> {
    if cs == [] then {}
    else
      var (before, c) := (LinesWithCalls(cs[..|cs| - 1], source), cs[|cs| - 1]);
      if c.isCall && c.bucket.Line? && c.bucket.source == source then before + {c.bucket.line} else before
  }

  // ---------------------------------------------------------------------------------------------
  // One more event, one more charge.

  lemma {:induction false} ChargesPush(env: Env, evs: seq<Event>, e: Event)
    ensures Charges(env, evs + [e]) == if e.Enter? then Charges(env, evs) else Charges(env, evs) + [ChargeOf(env, e)]
  {
    assert (evs + [e])[..|evs|] == evs;
  }

  lemma {:induction false} FrameTotalsPush(evs: seq<Event>, e: Event, contract: Option<Address>)
    ensures FrameTotals(evs + [e], contract)
            == FrameTotals(evs, contract)
               + if e.Leave? && (contract.None? || contract.value == e.callee.target) then FrameTotal(e) else 0
  {
    assert (evs + [e])[..|evs|] == evs;
  }

  lemma {:induction false} SelectPush(cs: seq<Charge>, c: Charge, only: Option<Address>)
    ensures Select(cs + [c], only) == if Passes(only, c.target) then Select(cs, only) + [c] else Select(cs, only)
  {
    assert (cs + [c])[..|cs|] == cs;
  }

  lemma {:induction false} BalancePush(account: Account, cs: seq<Charge>, c: Charge)
    ensures Balance(account, cs + [c]) == Balance(account, cs) + if CountsFor(account, c) then c.amount else 0
  {
    assert (cs + [c])[..|cs|] == cs;
  }

  lemma {:induction false} LineTablesPush(cs: seq<Charge>, c: Charge, source: Num)
    ensures c.bucket.Line? && c.bucket.source == source ==>
              && LineGas(cs + [c], source) == AddToLine(LineGas(cs, source), c.bucket.line, c.amount)
              && LinesWithCalls(cs + [c], source)
                 == LinesWithCalls(cs, source) + if c.isCall then {c.bucket.line} else {}
    ensures !(c.bucket.Line? && c.bucket.source == source) ==>
              && LineGas(cs + [c], source) == LineGas(cs, source)
              && LinesWithCalls(cs + [c], source) == LinesWithCalls(cs, source)
  {
    assert (cs + [c])[..|cs|] == cs;
  }

  /** What one event adds. */
  function RecordOf(env: Env, only: Option<Address>, e: Event): seq<Charge> {
    if !e.Enter? && Passes(only, e.who.target) then [ChargeOf(env, e)] else []
  }

  lemma {:induction false} RecordedPush(env: Env, only: Option<Address>, evs: seq<Event>, e: Event)
    ensures Recorded(env, only, evs + [e]) == Recorded(env, only, evs) + RecordOf(env, only, e)
  {
    ChargesPush(env, evs, e);
    if !e.Enter? {
      SelectPush(Charges(env, evs), ChargeOf(env, e), only);
    }
  }

  // ---------------------------------------------------------------------------------------------
  // The folds are homomorphisms.

  lemma {:induction false} PaidConcat(x: seq<Event>, y: seq<Event>)
    ensures Paid(x + y) == Paid(x) + Paid(y)
  {
    if y == [] {
      assert x + y == x;
    } else {
      assert (x + y)[..|x + y| - 1] == x + y[..|y| - 1];
      PaidConcat(x, y[..|y| - 1]);
    }
  }

  lemma {:induction false} FrameTotalsConcat(x: seq<Event>, y: seq<Event>, contract: Option<Address>)
    ensures FrameTotals(x + y, contract) == FrameTotals(x, contract) + FrameTotals(y, contract)
  {
    if y == [] {
      assert x + y == x;
    } else {
      assert (x + y)[..|x + y| - 1] == x + y[..|y| - 1];
      FrameTotalsConcat(x, y[..|y| - 1], contract);
    }
  }

  lemma {:induction false} PaidCons(e: Event, evs: seq<Event>)
    ensures Paid([e] + evs) == Amount(e) + Paid(evs)
  {
    PaidConcat([e], evs);
    assert [e][..|[e]| - 1] == [];
    assert Paid([e]) == Amount(e);
  }

  lemma {:induction false} FrameTotalsCons(e: Event, evs: seq<Event>)
    ensures FrameTotals([e] + evs, None) == FrameTotal(e) + FrameTotals(evs, None)
  {
    FrameTotalsConcat([e], evs, None);
    assert [e][..|[e]| - 1] == [];
    assert FrameTotals([e], None) == FrameTotal(e) by {
      match e
      case Step(_, _, _) =>
      case Enter(_, _, _) =>
      case Leave(_, _, _, _, _, _) =>
    }
  }

  /** Nothing an event costs is missing from the charges, nor counted twice. */
  lemma {:induction false} ChargesTotal(env: Env, evs: seq<Event>)
    ensures Balance(Everything, Charges(env, evs)) == Paid(evs)
  {
    if evs != [] {
      var before := evs[..|evs| - 1];
      ChargesTotal(env, before);
      if !evs[|evs| - 1].Enter? {
        BalancePush(Everything, Charges(env, before), ChargeOf(env, evs[|evs| - 1]));
      }
    }
  }

  /** Every charge is in exactly one bucket. */
  lemma {:induction false} BucketsPartition(cs: seq<Charge>)
    ensures Balance(Everything, cs) == Balance(AllLines, cs) + Balance(AllSynth, cs) + Balance(Lost, cs)
  {
    if cs != [] {
      BucketsPartition(cs[..|cs| - 1]);
    }
  }
}
