/** When is a printed line figure the true sum? The answer for a trace, under any filter. */
module Truncation {
  import opened Wrappers
  import opened Trace
  import opened Lookup
  import opened CallTree
  import opened Ledger
  import opened Figures
  import opened Numeric
  import opened Order
  import opened Report
  import opened Sequences

  /** What log `i` causes is charged to this line. */
  predicate OnLine(env: Env, only: Option<Address>, logs: Logs, entry: FrameId, source: Num, line: nat, i: nat)
    requires i < |logs|
  {
    var c := ChargeByLog(env, logs, entry, i);
    c.Some? && Passes(only, c.value.target) && c.value.bucket == Line(source, line)
  }

  /** When it is charged: a call at its return, anything else at its own log. */
  function ChargeTag(logs: Logs, i: nat): (t: Tag)
    requires i < |logs|
    ensures IsTag(logs, t)
  {
    if Returns(logs, i) then Ret(i) else Own(i)
  }

  /** No other log is charged to the line later. */
  ghost predicate LastOnLine(env: Env, only: Option<Address>, logs: Logs, entry: FrameId, source: Num, line: nat,
                             i: nat)
    requires i < |logs|
  {
    && OnLine(env, only, logs, entry, source, line, i)
    && forall j | 0 <= j < |logs| && j != i && OnLine(env, only, logs, entry, source, line, j) ::
         Precedes(logs, ChargeTag(logs, j), ChargeTag(logs, i))
  }

  lemma {:induction false} RecordedConcat(env: Env, only: Option<Address>, x: seq<Event>, y: seq<Event>)
    ensures Recorded(env, only, x + y) == Recorded(env, only, x) + Recorded(env, only, y)
  {
    if y == [] {
      assert x + y == x;
    } else {
      var before, e := y[..|y| - 1], y[|y| - 1];
      RecordedConcat(env, only, x, before);
      assert x + y == (x + before) + [e] && y == before + [e];
      RecordedPush(env, only, x + before, e);
      RecordedPush(env, only, before, e);
    }
  }

  lemma {:induction false} EventOfTagAt(logs: Logs, entry: FrameId, ts: seq<Tag>, e: Event)
    requires AllTags(logs, ts) && e in EventsOfTags(logs, entry, ts)
    ensures exists k | 0 <= k < |ts| :: IsTag(logs, ts[k]) && e == EventOf(logs, entry, ts[k])
  {
    assert ts[0] in ts;
    if e != EventOf(logs, entry, ts[0]) {
      EventOfTagAt(logs, entry, ts[1..], e);
      var k :| 0 <= k < |ts[1..]| && IsTag(logs, ts[1..][k]) && e == EventOf(logs, entry, ts[1..][k]);
      assert ts[k + 1] == ts[1..][k];
    }
  }

  /** A tag's event, if it is charged at all, is the charge of its log, and the tag says when. */
  lemma {:induction false} TaggedCharge(env: Env, logs: Logs, entry: FrameId, t: Tag)
    requires IsTag(logs, t) && !EventOf(logs, entry, t).Enter?
    ensures t == ChargeTag(logs, t.i)
    ensures ChargeByLog(env, logs, entry, t.i) == Some(ChargeOf(env, EventOf(logs, entry, t)))
  {
    ChargeOfEvent(env, logs, entry, t.i);
  }

  lemma {:induction false} PrecedesOnce(logs: Logs, s: Tag, t: Tag)
    requires Precedes(logs, s, t)
    ensures !Precedes(logs, t, s) && s != t
  {}

  /** Nothing that comes behind the last charge of a line is charged to it. */
  lemma {:induction false} NothingLater(env: Env, only: Option<Address>, logs: Logs, entry: FrameId, source: Num,
                                        line: nat, i: nat, later: seq<Tag>, c: Charge)
    requires i < |logs| && LastOnLine(env, only, logs, entry, source, line, i)
    requires AllTags(logs, later) && PrecedesAll(logs, ChargeTag(logs, i), later)
    requires c in Recorded(env, only, EventsOfTags(logs, entry, later))
    ensures c.bucket != Line(source, line)
  {
    var evs := EventsOfTags(logs, entry, later);
    SelectMembers(Charges(env, evs), only, c);
    ChargesMembers(env, evs, c);
    var e :| e in evs && !e.Enter? && c == ChargeOf(env, e);
    EventOfTagAt(logs, entry, later, e);
    var k :| 0 <= k < |later| && IsTag(logs, later[k]) && e == EventOf(logs, entry, later[k]);
    var t := later[k];
    assert t in later;
    TaggedCharge(env, logs, entry, t);
    PrecedesOnce(logs, ChargeTag(logs, i), t);
    assert t.i != i && !OnLine(env, only, logs, entry, source, line, t.i);
  }

  lemma {:induction false} PositionOf(ts: seq<Tag>, t: Tag) returns (p: nat)
    requires t in ts
    ensures p < |ts| && ts[p] == t && ts == ts[..p] + ([t] + ts[p + 1..])
  {
    p :| 0 <= p < |ts| && ts[p] == t;
  }

  lemma {:induction false} OrderedBehind(logs: Logs, ts: seq<Tag>, p: nat)
    requires Ordered(logs, ts) && p < |ts|
    ensures AllTags(logs, ts[p + 1..]) && PrecedesAll(logs, ts[p], ts[p + 1..])
  {
    var later := ts[p + 1..];
    forall s | s in later ensures Precedes(logs, ts[p], s) {
      var q :| 0 <= q < |later| && later[q] == s;
      assert s == ts[p + 1 + q];
    }
  }

  /** The events of a trace, split at one tag. */
  lemma {:induction false} SplitAtTag(logs: Logs, entry: FrameId, t: Tag)
    returns (first: seq<Event>, later: seq<Tag>)
    requires DepthsOk(logs) && IsTag(logs, t)
    ensures AllTags(logs, later) && PrecedesAll(logs, t, later)
    ensures TraceEvents(logs, entry) == first + ([EventOf(logs, entry, t)] + EventsOfTags(logs, entry, later))
  {
    TraceInOrder(logs, entry);
    var ts := TraceTags(logs);
    var p := PositionOf(ts, t);
    later := ts[p + 1..];
    OrderedBehind(logs, ts, p);
    AllTagsSplit(logs, ts[..p], [t] + later);
    EventsOfTagsSplit(logs, entry, ts[..p], [t] + later);
    EventsOfTagsCons(logs, entry, t, later);
    first := EventsOfTags(logs, entry, ts[..p]);
  }

  lemma {:induction false} RecordedOne(env: Env, only: Option<Address>, e: Event)
    ensures Recorded(env, only, [e]) == RecordOf(env, only, e)
  {
    RecordedPush(env, only, [], e);
    assert [] + [e] == [e];
  }

  lemma {:induction false} RecordedSplit(env: Env, only: Option<Address>, first: seq<Event>, e: Event,
                                         last: seq<Event>)
    ensures Recorded(env, only, first + ([e] + last))
            == Recorded(env, only, first) + RecordOf(env, only, e) + Recorded(env, only, last)
  {
    RecordedConcat(env, only, first, [e] + last);
    RecordedConcat(env, only, [e], last);
    RecordedOne(env, only, e);
    ConcatAssociates(Recorded(env, only, first), RecordOf(env, only, e), Recorded(env, only, last));
  }

  /** The charges of a trace, split at one log's charge: nothing behind it is recorded before it. */
  lemma {:induction false} SplitAtCharge(env: Env, only: Option<Address>, logs: Logs, entry: FrameId, i: nat)
    returns (pre: seq<Charge>, later: seq<Tag>)
    requires DepthsOk(logs) && i < |logs|
    requires var c := ChargeByLog(env, logs, entry, i); c.Some? && Passes(only, c.value.target)
    ensures AllTags(logs, later) && PrecedesAll(logs, ChargeTag(logs, i), later)
    ensures Recorded(env, only, TraceEvents(logs, entry))
            == pre + [ChargeByLog(env, logs, entry, i).value]
               + Recorded(env, only, EventsOfTags(logs, entry, later))
  {
    var t := ChargeTag(logs, i);
    var first;
    first, later := SplitAtTag(logs, entry, t);
    pre := Recorded(env, only, first);
    RecordedSplit(env, only, first, EventOf(logs, entry, t), EventsOfTags(logs, entry, later));
    ChargeOfEvent(env, logs, entry, i);
  }

  lemma {:induction false} ExactAt(cs: seq<Charge>, pre: seq<Charge>, c: Charge, post: seq<Charge>, source: Num,
                                   line: nat)
    requires cs == pre + [c] + post && c.bucket == Line(source, line) && NoneOnLine(post, source, line)
    ensures Stored(LineGas(cs, source), line) == Balance(OfLine(source, line), cs)
            <==> InInt32(Balance(OfLine(source, line), cs) - c.amount)
  {
    StoredIsExactIff(pre, c, post, source, line);
    LaterChargesElsewhere(pre + [c], post, source, line);
    BalancePush(OfLine(source, line), pre, c);
  }

  ghost predicate NoneOnLine(cs: seq<Charge>, source: Num, line: nat) {
    forall c | c in cs :: c.bucket != Line(source, line)
  }

  lemma {:induction false} NoneLater(env: Env, only: Option<Address>, logs: Logs, entry: FrameId, source: Num,
                                     line: nat, i: nat, later: seq<Tag>)
    requires i < |logs| && LastOnLine(env, only, logs, entry, source, line, i)
    requires AllTags(logs, later) && PrecedesAll(logs, ChargeTag(logs, i), later)
    ensures NoneOnLine(Recorded(env, only, EventsOfTags(logs, entry, later)), source, line)
  {
    forall c | c in Recorded(env, only, EventsOfTags(logs, entry, later)) ensures c.bucket != Line(source, line) {
      NothingLater(env, only, logs, entry, source, line, i, later, c);
    }
  }

  /** A stored line figure is the true sum if and only if the sum less the last charge fits. */
  lemma {:induction false} LastChargeDecides(env: Env, only: Option<Address>, logs: Logs, entry: FrameId,
                                             source: Num, line: nat, i: nat)
    requires DepthsOk(logs) && i < |logs| && LastOnLine(env, only, logs, entry, source, line, i)
    ensures var cs := Recorded(env, only, TraceEvents(logs, entry));
            Stored(LineGas(cs, source), line) == Balance(OfLine(source, line), cs)
            <==> InInt32(Balance(OfLine(source, line), cs) - ChargeByLog(env, logs, entry, i).value.amount)
  {
    var pre, later := SplitAtCharge(env, only, logs, entry, i);
    NoneLater(env, only, logs, entry, source, line, i, later);
    ExactAt(Recorded(env, only, TraceEvents(logs, entry)), pre, ChargeByLog(env, logs, entry, i).value,
      Recorded(env, only, EventsOfTags(logs, entry, later)), source, line);
  }

  /** The same for any two numbers that are the sum over the logs and the last charge. */
  lemma {:induction false} SumDecides(env: Env, only: Option<Address>, logs: Logs, entry: FrameId, source: Num,
                                      line: nat, i: nat, sum: int, last: int)
    requires DepthsOk(logs) && i < |logs| && LastOnLine(env, only, logs, entry, source, line, i)
    requires sum == BalanceFrom(env, only, OfLine(source, line), logs, entry, 0)
    requires last == AmountByLog(env, only, OfLine(source, line), logs, entry, i)
    ensures Stored(LineGas(Recorded(env, only, TraceEvents(logs, entry)), source), line) == sum
            <==> InInt32(sum - last)
  {
    LastChargeDecides(env, only, logs, entry, source, line, i);
    BalanceByLog(env, only, OfLine(source, line), logs, entry);
  }

  /** A printed line figure is the sum over the logs if and only if that sum, less what is charged
      to the line last, fits in 32 signed bits. */
  lemma {:induction false} LineIsExactIff(env: Env, only: Option<Address>, logs: Logs, entry: FrameId, t: Tables,
                                          source: Num, line: nat, i: nat)
    requires DepthsOk(logs)
    requires t.FinalReport(logs, entry, TraceEvents(logs, entry), Recorded(env, only, TraceEvents(logs, entry)))
    requires i < |logs| && LastOnLine(env, only, logs, entry, source, line, i)
    ensures var sum := BalanceFrom(env, only, OfLine(source, line), logs, entry, 0);
            Stored(t.LinesOf(source), line) == sum
            <==> InInt32(sum - AmountByLog(env, only, OfLine(source, line), logs, entry, i))
  {
    assert t.LinesOf(source) == LineGas(Recorded(env, only, TraceEvents(logs, entry)), source);
    SumDecides(env, only, logs, entry, source, line, i,
      BalanceFrom(env, only, OfLine(source, line), logs, entry, 0),
      AmountByLog(env, only, OfLine(source, line), logs, entry, i));
  }

  /** The tags up to `n` that are charged to a line, like the one at `q`, have a last one. */
  lemma {:induction false} LastCharged(env: Env, only: Option<Address>, logs: Logs, entry: FrameId, source: Num,
                                       line: nat, ts: seq<Tag>, n: nat, q: nat)
    returns (p: nat)
    requires q < n <= |ts| && ChargesLine(env, only, logs, entry, source, line, ts[q])
    ensures p < n && ChargesLine(env, only, logs, entry, source, line, ts[p])
    ensures forall m | p < m < n :: !ChargesLine(env, only, logs, entry, source, line, ts[m])
  {
    p := n - 1;
    if !ChargesLine(env, only, logs, entry, source, line, ts[n - 1]) {
      p := LastCharged(env, only, logs, entry, source, line, ts, n - 1, q);
    }
  }

  predicate ChargesLine(env: Env, only: Option<Address>, logs: Logs, entry: FrameId, source: Num, line: nat, t: Tag) {
    t.i < |logs| && t == ChargeTag(logs, t.i) && OnLine(env, only, logs, entry, source, line, t.i)
  }

  /** Every line that is charged has a log that is charged to it last. */
  lemma {:induction false} SomeLogIsLast(env: Env, only: Option<Address>, logs: Logs, entry: FrameId, source: Num,
                                         line: nat, j: nat)
    returns (i: nat)
    requires DepthsOk(logs) && j < |logs| && OnLine(env, only, logs, entry, source, line, j)
    ensures i < |logs| && LastOnLine(env, only, logs, entry, source, line, i)
  {
    TraceInOrder(logs, entry);
    var ts := TraceTags(logs);
    var q := PositionOf(ts, ChargeTag(logs, j));
    assert ChargesLine(env, only, logs, entry, source, line, ts[q]);
    var p := LastCharged(env, only, logs, entry, source, line, ts, |ts|, q);
    i := ts[p].i;
    forall m | 0 <= m < |logs| && m != i && OnLine(env, only, logs, entry, source, line, m)
      ensures Precedes(logs, ChargeTag(logs, m), ChargeTag(logs, i))
    {
      LastFollows(env, only, logs, entry, source, line, ts, p, m);
    }
  }

  lemma {:induction false} LastFollows(env: Env, only: Option<Address>, logs: Logs, entry: FrameId, source: Num,
                                       line: nat, ts: seq<Tag>, p: nat, m: nat)
    requires Ordered(logs, ts) && p < |ts| && m < |logs| && m != ts[p].i && ChargeTag(logs, m) in ts
    requires OnLine(env, only, logs, entry, source, line, m)
    requires forall q | p < q < |ts| :: !ChargesLine(env, only, logs, entry, source, line, ts[q])
    ensures Precedes(logs, ChargeTag(logs, m), ts[p])
  {
    var k := PositionOf(ts, ChargeTag(logs, m));
    assert ChargesLine(env, only, logs, entry, source, line, ts[k]);
  }

  /** The lines in the report are those that some log is charged to. */
  lemma {:induction false} ReportedLine(env: Env, only: Option<Address>, logs: Logs, entry: FrameId, t: Tables,
                                         source: Num, line: nat)
    requires DepthsOk(logs)
    requires t.FinalReport(logs, entry, TraceEvents(logs, entry), Recorded(env, only, TraceEvents(logs, entry)))
    ensures line in t.LinesOf(source)
            <==> exists i | 0 <= i < |logs| :: OnLine(env, only, logs, entry, source, line, i)
  {
    var cs := Recorded(env, only, TraceEvents(logs, entry));
    ChargedLines(cs, source, line);
    forall c | c in cs && c.bucket == Line(source, line)
      ensures exists i | 0 <= i < |logs| :: OnLine(env, only, logs, entry, source, line, i)
    {
      ChargesOfTrace(env, only, logs, entry, c);
      var i :| 0 <= i < |logs| && ChargeByLog(env, logs, entry, i) == Some(c);
      assert OnLine(env, only, logs, entry, source, line, i);
    }
    forall i | 0 <= i < |logs| && OnLine(env, only, logs, entry, source, line, i)
      ensures exists c | c in cs :: c.bucket == Line(source, line)
    {
      ChargesOfTrace(env, only, logs, entry, ChargeByLog(env, logs, entry, i).value);
    }
  }

  lemma {:induction false} ChargedLines(cs: seq<Charge>, source: Num, line: nat)
    ensures line in LineGas(cs, source) <==> exists c | c in cs :: c.bucket == Line(source, line)
  {
    if cs != [] {
      var before, c := cs[..|cs| - 1], cs[|cs| - 1];
      assert cs == before + [c];
      ChargedLines(before, source, line);
      LineTablesPush(before, c, source);
    }
  }
}
