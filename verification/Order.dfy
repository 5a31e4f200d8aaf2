/** The order in which the profiler records what the logs cause: a log when it runs, a call when it
    returns, and of several calls that return at once the innermost first. */
module Order {
  import opened Wrappers
  import opened Trace
  import opened Lookup
  import opened Sequences
  import opened CallTree
  import opened Figures

  /** What log `i` causes: its own event, or the return of the call it makes. */
  datatype Tag = Own(i: nat) | Ret(i: nat)

  predicate IsTag(logs: Logs, t: Tag) {
    t.i < |logs| && (t.Ret? ==> Returns(logs, t.i))
  }

  /** The log before which, or at which, it is recorded. */
  function TimeOf(logs: Logs, t: Tag): nat
    requires IsTag(logs, t)
  {
    if t.Own? then t.i else ReturnOf(logs, t.i)
  }

  predicate Before(logs: Logs, s: Tag, t: Tag)
    requires IsTag(logs, s) && IsTag(logs, t)
  {
    || TimeOf(logs, s) < TimeOf(logs, t)
    || (TimeOf(logs, s) == TimeOf(logs, t) && s.Ret? && (t.Own? || t.i < s.i))
  }

  function EventOf(logs: Logs, entry: FrameId, t: Tag): Event
    requires IsTag(logs, t)
  {
    if t.Own? then OwnEvent(logs, entry, t.i) else ReturnEvent(logs, entry, t.i)
  }

  // ---------------------------------------------------------------------------------------------
  // The tags of a call tree, in its order.

  function Tags(logs: Logs, d: int, a: nat, rest: seq<Tag>): seq<Tag>
    requires a <= |logs|
    decreases |logs| - a
  {
    if a == |logs| || logs[a].depth < d then rest
    else if Opens(logs, a) then [Own(a)] + Tags(logs, logs[a].depth + 1, a + 1, TagsAfterCall(logs, d, a, rest))
    else [Own(a)] + Tags(logs, d, a + 1, rest)
  }

  function TagsAfterCall(logs: Logs, d: int, a: nat, rest: seq<Tag>): seq<Tag>
    requires a < |logs| && Opens(logs, a)
    decreases |logs| - a, 0
  {
    var r := ReturnOf(logs, a);
    if r == |logs| then rest else [Ret(a)] + Tags(logs, d, r, rest)
  }

  function TraceTags(logs: Logs): seq<Tag>
    requires |logs| > 0
  {
    Tags(logs, logs[0].depth, 0, [])
  }

  ghost predicate AllTags(logs: Logs, ts: seq<Tag>) {
    forall t | t in ts :: IsTag(logs, t)
  }

  function EventsOfTags(logs: Logs, entry: FrameId, ts: seq<Tag>): (evs: seq<Event>)
    requires AllTags(logs, ts)
    ensures |evs| == |ts|
  {
    if ts == [] then []
    else
      assert ts[0] in ts;
      [EventOf(logs, entry, ts[0])] + EventsOfTags(logs, entry, ts[1..])
  }

  lemma {:induction false} EventsOfTagsCons(logs: Logs, entry: FrameId, t: Tag, ts: seq<Tag>)
    requires IsTag(logs, t) && AllTags(logs, ts)
    ensures AllTags(logs, [t] + ts)
    ensures EventsOfTags(logs, entry, [t] + ts) == [EventOf(logs, entry, t)] + EventsOfTags(logs, entry, ts)
  {
    assert ([t] + ts)[1..] == ts;
  }

  lemma {:induction false} AllTagsSplit(logs: Logs, x: seq<Tag>, y: seq<Tag>)
    ensures AllTags(logs, x + y) <==> AllTags(logs, x) && AllTags(logs, y)
  {
    assert forall t | t in x :: t in x + y;
    assert forall t | t in y :: t in x + y;
  }

  lemma {:induction false} EventsOfTagsSplit(logs: Logs, entry: FrameId, x: seq<Tag>, y: seq<Tag>)
    requires AllTags(logs, x) && AllTags(logs, y)
    ensures AllTags(logs, x + y)
    ensures EventsOfTags(logs, entry, x + y) == EventsOfTags(logs, entry, x) + EventsOfTags(logs, entry, y)
  {
    AllTagsSplit(logs, x, y);
    if x == [] {
      assert x + y == y;
    } else {
      var t, rest := x[0], x[1..];
      assert t in x && x == [t] + rest;
      AllTagsSplit(logs, [t], rest);
      EventsOfTagsSplit(logs, entry, rest, y);
      ConcatAssociates([t], rest, y);
      EventsOfTagsCons(logs, entry, t, rest + y);
      EventsOfTagsCons(logs, entry, t, rest);
      var e := [EventOf(logs, entry, t)];
      ConcatAssociates(e, EventsOfTags(logs, entry, rest), EventsOfTags(logs, entry, y));
    }
  }

  // ---------------------------------------------------------------------------------------------
  // They are in order.

  ghost predicate Ordered(logs: Logs, ts: seq<Tag>) {
    && AllTags(logs, ts)
    && forall j, k | 0 <= j < k < |ts| :: Precedes(logs, ts[j], ts[k])
  }

  ghost predicate Precedes(logs: Logs, s: Tag, t: Tag) {
    IsTag(logs, s) && IsTag(logs, t) && Before(logs, s, t)
  }

  ghost predicate PrecedesAll(logs: Logs, s: Tag, ts: seq<Tag>) {
    forall t | t in ts :: Precedes(logs, s, t)
  }

  lemma {:induction false} OrderedCons(logs: Logs, s: Tag, ts: seq<Tag>)
    requires IsTag(logs, s) && Ordered(logs, ts) && PrecedesAll(logs, s, ts)
    ensures Ordered(logs, [s] + ts)
  {
    var all := [s] + ts;
    forall j, k | 0 <= j < k < |all| ensures Precedes(logs, all[j], all[k]) {
      if j == 0 {
        assert all[k] in ts;
      } else {
        assert all[j] == ts[j - 1] && all[k] == ts[k - 1];
      }
    }
  }

  /** Recorded after the logs `a`..`e`-1 and the calls they make. */
  predicate IsAfter(logs: Logs, a: nat, e: nat, t: Tag) {
    && IsTag(logs, t)
    && e <= TimeOf(logs, t)
    && (t.Ret? && TimeOf(logs, t) == e ==> t.i < a)
  }

  ghost predicate AllAfter(logs: Logs, a: nat, e: nat, ts: seq<Tag>) {
    forall t | t in ts :: IsAfter(logs, a, e, t)
  }

  /** Every tag is of a log in the range, or one of the rest. */
  ghost predicate OfRange(logs: Logs, a: nat, e: nat, ts: seq<Tag>, rest: seq<Tag>) {
    forall t | t in ts :: (IsTag(logs, t) && a <= t.i < e) || t in rest
  }

  lemma {:induction false} TagsOrdered(logs: Logs, d: int, a: nat, rest: seq<Tag>)
    requires DepthsOk(logs) && a <= |logs| && (a < |logs| ==> logs[a].depth <= d)
    requires Ordered(logs, rest) && AllAfter(logs, a, FirstBelow(logs, a, d), rest)
    ensures Ordered(logs, Tags(logs, d, a, rest))
    ensures OfRange(logs, a, FirstBelow(logs, a, d), Tags(logs, d, a, rest), rest)
    decreases |logs| - a, 1
  {
    if a < |logs| && logs[a].depth == d {
      var e, next := FirstBelow(logs, a, d), NextInFrame(logs, a);
      NextInSameFrame(logs, a);
      LaterStart(logs, a, next, e, rest);
      TagsOrdered(logs, d, next, rest);
      if Opens(logs, a) {
        TagsOrderedAtCall(logs, d, a, rest);
      } else {
        FirstOfStep(logs, a, e, Tags(logs, d, next, rest), rest);
      }
    }
  }

  lemma {:induction false} TagsAtCall(logs: Logs, d: int, a: nat, rest: seq<Tag>)
    requires a < |logs| && logs[a].depth == d && Opens(logs, a)
    ensures Tags(logs, d, a, rest) == [Own(a)] + Tags(logs, d + 1, a + 1, TagsAfterCall(logs, d, a, rest))
  {}

  lemma {:induction false} TagsAtStep(logs: Logs, d: int, a: nat, rest: seq<Tag>)
    requires a < |logs| && logs[a].depth == d && !Opens(logs, a)
    ensures Tags(logs, d, a, rest) == [Own(a)] + Tags(logs, d, a + 1, rest)
  {}

  lemma {:induction false} TagsOrderedAtCall(logs: Logs, d: int, a: nat, rest: seq<Tag>)
    requires DepthsOk(logs) && a < |logs| && logs[a].depth == d && Opens(logs, a)
    requires Ordered(logs, rest) && AllAfter(logs, a, FirstBelow(logs, a, d), rest)
    requires var r, e := ReturnOf(logs, a), FirstBelow(logs, a, d);
             && r <= e
             && Ordered(logs, Tags(logs, d, r, rest))
             && OfRange(logs, r, e, Tags(logs, d, r, rest), rest)
    ensures Ordered(logs, Tags(logs, d, a, rest))
    ensures OfRange(logs, a, FirstBelow(logs, a, d), Tags(logs, d, a, rest), rest)
    decreases |logs| - a, 0
  {
    var tail := TagsAfterCall(logs, d, a, rest);
    TailOrdered(logs, d, a, rest, Tags(logs, d, ReturnOf(logs, a), rest));
    SubOrdered(logs, d, a, tail);
    FirstOfCall(logs, a, FirstBelow(logs, a, d), tail, Tags(logs, d, ReturnOf(logs, a), rest),
      Tags(logs, d + 1, a + 1, tail), rest);
    TagsAtCall(logs, d, a, rest);
  }

  /** The callee. */
  lemma {:induction false} SubOrdered(logs: Logs, d: int, a: nat, tail: seq<Tag>)
    requires DepthsOk(logs) && a < |logs| && logs[a].depth == d && Opens(logs, a)
    requires Ordered(logs, tail) && AllAfter(logs, a + 1, ReturnOf(logs, a), tail)
    ensures Ordered(logs, Tags(logs, d + 1, a + 1, tail))
    ensures OfRange(logs, a + 1, ReturnOf(logs, a), Tags(logs, d + 1, a + 1, tail), tail)
    decreases |logs| - a - 1, 2
  {
    NextInSameFrame(logs, a);
    TagsOrdered(logs, d + 1, a + 1, tail);
  }

  lemma {:induction false} NextInSameFrame(logs: Logs, a: nat)
    requires DepthsOk(logs) && a < |logs|
    ensures var next := NextInFrame(logs, a);
            && next <= FirstBelow(logs, a, logs[a].depth) == FirstBelow(logs, next, logs[a].depth)
            && (next < |logs| ==> logs[next].depth <= logs[a].depth)
    ensures Opens(logs, a) ==> logs[a + 1].depth == logs[a].depth + 1
  {
    NextStaysInFrame(logs, FrameId(0, false), a);
    assert RiseOk(logs, a);
  }

  lemma {:induction false} LaterStart(logs: Logs, a: nat, b: nat, e: nat, ts: seq<Tag>)
    requires a <= b && AllAfter(logs, a, e, ts)
    ensures AllAfter(logs, b, e, ts)
  {
    forall t | t in ts ensures IsAfter(logs, b, e, t) {
      assert IsAfter(logs, a, e, t);
    }
  }

  /** After a call: its return comes first, and all of it is after the callee. */
  lemma {:induction false} TailOrdered(logs: Logs, d: int, a: nat, rest: seq<Tag>, after: seq<Tag>)
    requires DepthsOk(logs) && a < |logs| && logs[a].depth == d && Opens(logs, a)
    requires Ordered(logs, rest) && AllAfter(logs, a, FirstBelow(logs, a, d), rest)
    requires ReturnOf(logs, a) <= FirstBelow(logs, a, d)
    requires after == Tags(logs, d, ReturnOf(logs, a), rest) && Ordered(logs, after)
    requires OfRange(logs, ReturnOf(logs, a), FirstBelow(logs, a, d), after, rest)
    ensures Ordered(logs, TagsAfterCall(logs, d, a, rest))
    ensures AllAfter(logs, a + 1, ReturnOf(logs, a), TagsAfterCall(logs, d, a, rest))
  {
    var r, e := ReturnOf(logs, a), FirstBelow(logs, a, d);
    forall t | t in after ensures IsAfter(logs, a, r, t) {
      if t in rest {
        assert IsAfter(logs, a, e, t);
      }
    }
    if r < |logs| {
      forall t | t in after ensures Precedes(logs, Ret(a), t) {
        assert IsAfter(logs, a, r, t);
      }
      OrderedCons(logs, Ret(a), after);
    } else {
      assert FirstBelow(logs, r, d) == r && after == rest;
    }
    forall t | t in TagsAfterCall(logs, d, a, rest) ensures IsAfter(logs, a + 1, r, t) {
      assert t == Ret(a) || IsAfter(logs, a, r, t);
    }
  }

  lemma {:induction false} FirstOfCall(logs: Logs, a: nat, e: nat, tail: seq<Tag>, after: seq<Tag>, sub: seq<Tag>,
                                       rest: seq<Tag>)
    requires a < |logs| && Opens(logs, a) && ReturnOf(logs, a) <= e && Ordered(logs, sub)
    requires tail == if ReturnOf(logs, a) == |logs| then rest else [Ret(a)] + after
    requires AllAfter(logs, a + 1, ReturnOf(logs, a), tail)
    requires OfRange(logs, ReturnOf(logs, a), e, after, rest) && OfRange(logs, a + 1, ReturnOf(logs, a), sub, tail)
    ensures Ordered(logs, [Own(a)] + sub) && OfRange(logs, a, e, [Own(a)] + sub, rest)
  {
    forall t | t in sub
      ensures Precedes(logs, Own(a), t) && ((IsTag(logs, t) && a <= t.i < e) || t in rest)
    {
      if t in tail {
        assert IsAfter(logs, a + 1, ReturnOf(logs, a), t);
      }
    }
    OrderedCons(logs, Own(a), sub);
  }

  lemma {:induction false} FirstOfStep(logs: Logs, a: nat, e: nat, after: seq<Tag>, rest: seq<Tag>)
    requires a < |logs| && a < e && Ordered(logs, after) && OfRange(logs, a + 1, e, after, rest)
    requires AllAfter(logs, a, e, rest)
    ensures Ordered(logs, [Own(a)] + after) && OfRange(logs, a, e, [Own(a)] + after, rest)
  {
    forall t | t in after
      ensures Precedes(logs, Own(a), t) && ((IsTag(logs, t) && a <= t.i < e) || t in rest)
    {
      if t in rest {
        assert IsAfter(logs, a, e, t);
      }
    }
    OrderedCons(logs, Own(a), after);
  }

  // ---------------------------------------------------------------------------------------------
  // They are complete, and stand for the events.

  lemma {:induction false} TagsComplete(logs: Logs, d: int, a: nat, rest: seq<Tag>, t: Tag)
    requires DepthsOk(logs) && a <= |logs| && (a < |logs| ==> logs[a].depth <= d)
    requires (IsTag(logs, t) && a <= t.i < FirstBelow(logs, a, d)) || t in rest
    ensures t in Tags(logs, d, a, rest)
    decreases |logs| - a
  {
    if a < |logs| && logs[a].depth == d {
      var next := NextInFrame(logs, a);
      NextInSameFrame(logs, a);
      if t in rest || next <= t.i {
        TagsComplete(logs, d, next, rest, t);
      }
      if Opens(logs, a) {
        if t != Own(a) {
          InTail(logs, d, a, rest, t);
          TagsComplete(logs, d + 1, a + 1, TagsAfterCall(logs, d, a, rest), t);
        }
        TagsAtCall(logs, d, a, rest);
      } else {
        TagsAtStep(logs, d, a, rest);
      }
    }
  }

  lemma {:induction false} InTail(logs: Logs, d: int, a: nat, rest: seq<Tag>, t: Tag)
    requires a < |logs| && Opens(logs, a) && t != Own(a)
    requires (IsTag(logs, t) && a <= t.i < ReturnOf(logs, a)) || t in Tags(logs, d, ReturnOf(logs, a), rest)
    ensures (IsTag(logs, t) && a < t.i < ReturnOf(logs, a)) || t in TagsAfterCall(logs, d, a, rest)
  {
    assert IsTag(logs, t) && t.i == a ==> t == Ret(a) && ReturnOf(logs, a) < |logs|;
    if ReturnOf(logs, a) == |logs| {
      assert Tags(logs, d, |logs|, rest) == rest;
    }
  }

  lemma {:induction false} TagsAreEvents(logs: Logs, entry: FrameId, who: FrameId, d: int, a: nat,
                                         rest: seq<Event>, ts: seq<Tag>)
    requires DepthsOk(logs) && a <= |logs| && InFrame(logs, entry, who, d, a)
    requires AllTags(logs, ts) && rest == EventsOfTags(logs, entry, ts)
    ensures AllTags(logs, Tags(logs, d, a, ts))
    ensures Events(logs, who, d, a, rest) == EventsOfTags(logs, entry, Tags(logs, d, a, ts))
    decreases |logs| - a
  {
    if a < |logs| && logs[a].depth == d {
      var next := NextInFrame(logs, a);
      NextStaysInFrame(logs, entry, a);
      TagsAreEvents(logs, entry, who, d, next, rest, ts);
      if Opens(logs, a) {
        AfterCallTagged(logs, entry, who, d, a, rest, ts);
        var tail := TagsAfterCall(logs, d, a, ts);
        TagsAreEvents(logs, entry, CalleeOf(logs, a), d + 1, a + 1, AfterCall(logs, who, d, a, rest), tail);
        EventsOfTagsCons(logs, entry, Own(a), Tags(logs, d + 1, a + 1, tail));
      } else {
        EventsOfTagsCons(logs, entry, Own(a), Tags(logs, d, a + 1, ts));
      }
    }
  }

  lemma {:induction false} AfterCallTagged(logs: Logs, entry: FrameId, who: FrameId, d: int, a: nat,
                                           rest: seq<Event>, ts: seq<Tag>)
    requires a < |logs| && logs[a].depth == d && FrameOf(logs, entry, a) == who && Opens(logs, a)
    requires AllTags(logs, ts) && rest == EventsOfTags(logs, entry, ts)
    requires AllTags(logs, Tags(logs, d, ReturnOf(logs, a), ts))
    requires Events(logs, who, d, ReturnOf(logs, a), rest)
             == EventsOfTags(logs, entry, Tags(logs, d, ReturnOf(logs, a), ts))
    ensures AllTags(logs, TagsAfterCall(logs, d, a, ts))
    ensures AfterCall(logs, who, d, a, rest) == EventsOfTags(logs, entry, TagsAfterCall(logs, d, a, ts))
  {
    if ReturnOf(logs, a) < |logs| {
      EventsOfTagsCons(logs, entry, Ret(a), Tags(logs, d, ReturnOf(logs, a), ts));
    }
  }

  /** The events of a trace are those of its tags, all of them, in their order. */
  lemma {:induction false} TraceInOrder(logs: Logs, entry: FrameId)
    requires DepthsOk(logs)
    ensures Ordered(logs, TraceTags(logs))
    ensures TraceEvents(logs, entry) == EventsOfTags(logs, entry, TraceTags(logs))
    ensures forall t | IsTag(logs, t) :: t in TraceTags(logs)
  {
    FirstBelowUnique(logs, 0, logs[0].depth, |logs|);
    TagsOrdered(logs, logs[0].depth, 0, []);
    TagsAreEvents(logs, entry, entry, logs[0].depth, 0, [], []);
    forall t | IsTag(logs, t) ensures t in TraceTags(logs) {
      TagsComplete(logs, logs[0].depth, 0, [], t);
    }
  }
}
