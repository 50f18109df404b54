/** The limit the pool documents, on the number of queries that wait for responses at one time: exactly which
    steps exceed it, from any state and for any limit. */
module PoolWaiting {
  import opened Keys
  import opened Options
  import opened Times
  import opened QueryModel
  import opened QueryProofs
  import opened QueryProgress
  import QueryRuns
  import opened PoolModel
  import opened PoolProofs
  import opened PoolBound

  // ---------- how many queries wait ----------

  /** The number of queries with a request out. */
  function HowManyWait(qs: seq<Entry>): nat {
    if qs == [] then 0 else (if qs[0].q.inFlight > 0 then 1 else 0) + HowManyWait(qs[1..])
  }

  /** The number of queries that have sent a message. */
  ghost function Started(a: Names): nat {
    if a == [] then 0 else (if a[0].1 != [] then 1 else 0) + Started(a[1..])
  }

  /** A query that has sent a message and is still in the pool has a request out. */
  ghost predicate Busy(p: Pool) {
    forall i :: 0 <= i < |p.queries| ==> IsBusy(p.queries[i].q)
  }

  predicate IsBusy(q: QueryState) {
    q.messaged != [] ==> q.inFlight > 0
  }

  lemma {:induction false} WaitingIsStarted(qs: seq<Entry>, a: Names)
    requires |a| == |qs| && forall i :: 0 <= i < |qs| ==> a[i] == (qs[i].id, qs[i].q.messaged)
    requires forall i :: 0 <= i < |qs| ==> (qs[i].q.messaged != [] <==> qs[i].q.inFlight > 0)
    ensures HowManyWait(qs) == Started(a)
  {
    if qs != [] {
      WaitingIsStarted(qs[1..], a[1..]);
    }
  }

  lemma BusyWaiting(p: Pool)
    requires PoolInv(p) && Busy(p)
    ensures HowManyWait(p.queries) == Started(NamesOf(p))
  {
    forall i | 0 <= i < |p.queries|
      ensures p.queries[i].q.messaged != [] <==> p.queries[i].q.inFlight > 0
    {
      assert QueryOk(p, p.queries[i].q) && IsBusy(p.queries[i].q);
      if p.queries[i].q.messaged == [] {
        NothingMessaged(p.queries[i].q);
      }
    }
    hide PoolInv;
    WaitingIsStarted(p.queries, NamesOf(p));
  }

  lemma {:induction false} StartedSet(a: Names, i: nat, x: (QueryID, seq<Key>))
    requires i < |a|
    ensures Started(a[i := x]) == Started(a) - (if a[i].1 != [] then 1 else 0) + (if x.1 != [] then 1 else 0)
  {
    if i == 0 {
      assert a[0 := x][1..] == a[1..];
    } else {
      assert a[i := x][1..] == a[1..][i - 1 := x];
      StartedSet(a[1..], i - 1, x);
    }
  }

  lemma {:induction false} StartedRemove(a: Names, i: nat)
    requires i < |a|
    ensures Started(RemoveAt(a, i)) == Started(a) - (if a[i].1 != [] then 1 else 0)
  {
    if i == 0 {
      assert RemoveAt(a, 0) == a[1..];
    } else {
      assert RemoveAt(a, i)[1..] == RemoveAt(a[1..], i - 1);
      StartedRemove(a[1..], i - 1);
    }
  }

  /** A step adds to the number by a first message only. */
  lemma ExplainsStarted(a: Names, b: Names, out: PoolOutput, pos: nat)
    requires Explains(a, b, out, pos)
    ensures out.QueryMessage? && a[pos].1 == [] ==> Started(b) == Started(a) + 1
    ensures !(out.QueryMessage? && a[pos].1 == []) ==> Started(b) <= Started(a)
  {
    match out
    case QueryMessage(id, node) => StartedSet(a, pos, (id, a[pos].1 + [node]));
    case QueryFinished(id) => StartedRemove(a, pos);
    case QueryTimeout(id) => StartedRemove(a, pos);
    case _ =>
  }

  // ---------- which query a step starts ----------

  /** The query at position i takes its step and waits on: the pass goes on. */
  ghost predicate Quiet(p: Pool, i: nat, ev: Event, now: Time) {
    && i < |p.queries| && KeysFit(p.queries[i].q) && EventFits(p.queries[i].q, ev)
    && AdvanceQuery(p, i, ev, now).1 == None
  }

  /** How many queries other than the one at e stand before position pos. */
  function OthersBefore(pos: nat, e: int): nat {
    if 0 <= e < pos then pos - 1 else pos
  }

  /** There is room for the query at pos: it is the first the pass looks at, or the queries looked at before it,
      with the one the event was for, are fewer than the limit. */
  predicate HasRoom(limit: nat, pos: nat, e: int) {
    OthersBefore(pos, e) == 0 || OthersBefore(pos, e) + (if e >= 0 then 1 else 0) < limit
  }

  /** The query at pos has not sent a message, and after ev it has a node to contact. */
  ghost predicate CanStart(p: Pool, pos: nat, ev: Event) {
    && pos < |p.queries| && p.queries[pos].q.messaged == [] && ev != Cancel
    && exists k :: OpenAfter(p.queries[pos].q, ev, k)
  }

  /** The pass from position j on gets to the query at pos and starts it. */
  ghost predicate PassStarts(p: Pool, j: nat, e: int, pos: nat, now: Time) {
    && pos != e && CanStart(p, pos, NoEvent) && HasRoom(p.cfg.concurrency, pos, e)
    && forall i :: j <= i < pos && i != e ==> Quiet(p, i, NoEvent, now)
  }

  /** The position of the query an event is for, or -1. */
  function EventPos(p: Pool, ev: PoolEvent): int {
    if ev.AddQuery? || ev.Poll? || IndexOf(p.queries, ev.id) == |p.queries| then -1 else IndexOf(p.queries, ev.id)
  }

  /** The step starts the query at pos: it is the one the event is for, or that one waits on and the pass gets to
      pos. */
  ghost predicate StartsAt(p: Pool, ev: PoolEvent, now: Time, pos: nat) {
    var a, e, qev := AfterAdd(p, ev), EventPos(AfterAdd(p, ev), ev), Target(ev).1;
    if pos == e then CanStart(a, pos, qev)
    else (e >= 0 ==> Quiet(a, e, qev, now)) && PassStarts(a, 0, e, pos, now)
  }

  /** The step sends the first message of the query at pos. */
  ghost predicate Sends(p: Pool, out: PoolOutput, pos: nat) {
    pos < |p.queries| && p.queries[pos].q.messaged == [] && out.QueryMessage? && out.id == p.queries[pos].id
  }

  /** A query that has not started is never quiet: it starts or is over. */
  lemma UnstartedStep(p: Pool, i: nat, ev: Event, now: Time)
    requires PoolInv(p) && i < |p.queries| && EventFits(p.queries[i].q, ev) && p.queries[i].q.messaged == []
    ensures KeysFit(p.queries[i].q) && AdvanceQuery(p, i, ev, now).1.Some?
    ensures AdvanceQuery(p, i, ev, now).1.value.QueryMessage? <==> CanStart(p, i, ev)
    ensures AdvanceQuery(p, i, ev, now).1.value.QueryMessage? ==>
      AdvanceQuery(p, i, ev, now).1.value.id == p.queries[i].id
  {
    var q := p.queries[i].q;
    assert QueryOk(p, q);
    hide PoolInv;
    InvKeysFit(q);
    if ev == Cancel {
      CancelFinishes(q, now);
    } else {
      UnstartedQuery(q, ev, now);
    }
    hide Advance, OpenAfter, Inv, KeysFit, TimedOut;
  }

  /** What a step says of a query names that query. */
  lemma StepNamesQuery(p: Pool, i: nat, ev: Event, now: Time)
    requires i < |p.queries| && KeysFit(p.queries[i].q) && EventFits(p.queries[i].q, ev)
    ensures var (r, out) := AdvanceQuery(p, i, ev, now);
      && (out.Some? && out.value.QueryMessage? ==> out.value.id == p.queries[i].id)
      && (out.None? ==> |r.queries| == |p.queries| && r.cfg == p.cfg && r.self == p.self)
      && (out.None? ==> forall m :: 0 <= m < |p.queries| && m != i ==> r.queries[m] == p.queries[m])
      && (out.None? ==> r.queries[i].id == p.queries[i].id)
  {
    hide Advance, KeysFit, EventFits;
  }

  lemma SameFrom(p: Pool, r: Pool, j: nat, e: int, pos: nat, now: Time)
    requires |r.queries| == |p.queries| && r.cfg == p.cfg && j <= pos
    requires forall m :: j <= m < |p.queries| && m != e ==> r.queries[m] == p.queries[m]
    ensures PassStarts(p, j, e, pos, now) <==> PassStarts(r, j, e, pos, now)
  {
    hide KeysFit, EventFits, Advance, OpenAfter, TimedOut;
    assert forall i :: j <= i < |p.queries| && i != e ==> (Quiet(p, i, NoEvent, now) <==> Quiet(r, i, NoEvent, now));
  }

  lemma PassNext(p: Pool, j: nat, e: int, pos: nat, now: Time)
    requires j < pos
    ensures PassStarts(p, j, e, pos, now) <==>
      (j != e ==> Quiet(p, j, NoEvent, now)) && PassStarts(p, j + 1, e, pos, now)
  {
    hide Quiet, CanStart, HasRoom;
  }

  /** Where the pass stands, as far as the counting of queries in flight goes. */
  ghost predicate PassAt(p: Pool, j: nat, eventID: QueryID, e: int, inFlight: nat) {
    && PoolInv(p) && j <= |p.queries| && NamedIds(NamesOf(p)) && EventAt(NamesOf(p), eventID, e)
    && inFlight == OthersBefore(j, e) + (if e >= 0 then 1 else 0)
    && (OthersBefore(j, e) == 0 || inFlight < p.cfg.concurrency)
    && (e >= 0 ==> p.queries[e].q.messaged != [])
  }

  /** The pass goes past the query the event was for. */
  lemma PassSkips(p: Pool, j: nat, eventID: QueryID, e: int, inFlight: nat)
    requires PassAt(p, j, eventID, e, inFlight) && j < |p.queries|
    ensures p.queries[j].id == eventID <==> j == e
    ensures j == e ==> PassAt(p, j + 1, eventID, e, inFlight)
  {
    assert NamesOf(p)[j].0 == p.queries[j].id;
    if 0 <= e {
      assert NamesOf(p)[e].0 == p.queries[e].id;
    }
  }

  /** A query that waits on takes one place. */
  lemma PassGoesOn(p: Pool, j: nat, eventID: QueryID, e: int, inFlight: nat, now: Time, r: Pool)
    requires PassAt(p, j, eventID, e, inFlight) && j < |p.queries| && j != e && inFlight + 1 < p.cfg.concurrency
    requires KeysFit(p.queries[j].q) && EventFits(p.queries[j].q, NoEvent)
    requires AdvanceQuery(p, j, NoEvent, now) == (r, None)
    ensures PassAt(r, j + 1, eventID, e, inFlight + 1)
    ensures |r.queries| == |p.queries| && r.cfg == p.cfg
    ensures forall m :: j < m < |p.queries| ==> r.queries[m] == p.queries[m]
  {
    AdvanceQueryExplained(p, j, NoEvent, now);
    StepNames(p, j, r);
    StepNamesQuery(p, j, NoEvent, now);
    hide AdvanceQuery, PoolInv, NamedIds, NamesOf, KeysFit, EventFits;
  }

  /** The pass sends the first message of the query at pos exactly if it gets there and starts it. */
  lemma {:induction false} OthersStart(p: Pool, j: nat, eventID: QueryID, e: int, inFlight: nat, now: Time, pos: nat)
    requires PassAt(p, j, eventID, e, inFlight) && j <= pos < |p.queries|
    ensures PassStarts(p, j, e, pos, now) <==> Sends(p, Others(p, j, eventID, inFlight, now).1, pos)
    decreases |p.queries| - j, 1
  {
    hide Others, AdvanceQuery, KeysFit, EventFits, OpenAfter, PassAt;
    if pos == e || p.queries[pos].q.messaged != [] {
      assert pos == e ==> p.queries[pos].q.messaged != [] by { PassFacts(p, j, eventID, e, inFlight); }
      return;
    }
    PassFacts(p, j, eventID, e, inFlight);
    OthersUnfold(p, j, eventID, inFlight, now);
    PassSkips(p, j, eventID, e, inFlight);
    if j == e {
      PassNext(p, j, e, pos, now);
      OthersStart(p, j + 1, eventID, e, inFlight, now, pos);
    } else if j == pos {
      UnstartedStep(p, j, NoEvent, now);
    } else {
      OthersStartLater(p, j, eventID, e, inFlight, now, pos);
    }
  }

  lemma PassFacts(p: Pool, j: nat, eventID: QueryID, e: int, inFlight: nat)
    requires PassAt(p, j, eventID, e, inFlight)
    ensures PoolInv(p) && j <= |p.queries| && e < |p.queries|
    ensures e >= 0 ==> p.queries[e].q.messaged != []
    ensures j != e ==> HasRoom(p.cfg.concurrency, j, e)
  {}

  lemma {:induction false} OthersStartLater(p: Pool, j: nat, eventID: QueryID, e: int, inFlight: nat, now: Time,
                                            pos: nat)
    requires PassAt(p, j, eventID, e, inFlight) && j < pos < |p.queries| && j != e && pos != e
    requires PoolInv(p) && p.queries[j].id != eventID
    ensures PassStarts(p, j, e, pos, now) <==> Sends(p, Others(p, j, eventID, inFlight, now).1, pos)
    decreases |p.queries| - j, 0
  {
    hide Others, AdvanceQuery, KeysFit, EventFits, OpenAfter, PassAt;
    OthersUnfold(p, j, eventID, inFlight, now);
    PassNext(p, j, e, pos, now);
    StepNamesQuery(p, j, NoEvent, now);
    var (r, out) := AdvanceQuery(p, j, NoEvent, now);
    assert p.queries[j].id != p.queries[pos].id;
    hide PoolInv;
    if out.Some? {
      assert !Quiet(p, j, NoEvent, now);
    } else if inFlight + 1 >= p.cfg.concurrency {
      assert !HasRoom(p.cfg.concurrency, pos, e) by { NoRoomLater(p, j, eventID, e, inFlight, pos); }
    } else {
      PassGoesOn(p, j, eventID, e, inFlight, now, r);
      PassFacts(r, j + 1, eventID, e, inFlight + 1);
      OthersStart(r, j + 1, eventID, e, inFlight + 1, now, pos);
      SameFrom(p, r, j + 1, e, pos, now);
    }
  }

  lemma NoRoomLater(p: Pool, j: nat, eventID: QueryID, e: int, inFlight: nat, pos: nat)
    requires PassAt(p, j, eventID, e, inFlight) && j < pos && j != e && pos != e && inFlight + 1 >= p.cfg.concurrency
    ensures !HasRoom(p.cfg.concurrency, pos, e)
  {}

  /** The event's own query waits on: the pass over the others, which finds it started, starts the one at pos
      exactly if it gets there. */
  lemma AfterOwnStep(p: Pool, e: nat, qev: Event, now: Time, b: Pool, pos: nat)
    requires PoolInv(p) && NamedIds(NamesOf(p)) && e < |p.queries| && EventFits(p.queries[e].q, qev)
    requires KeysFit(p.queries[e].q) && AdvanceQuery(p, e, qev, now) == (b, None)
    requires pos < |p.queries| && pos != e
    ensures PoolInv(b)
    ensures PassStarts(p, 0, e, pos, now) <==> Sends(p, Others(b, 0, p.queries[e].id, 1, now).1, pos)
  {
    hide AdvanceQuery, KeysFit, EventFits, OpenAfter, Others;
    if p.queries[e].q.messaged == [] {
      UnstartedStep(p, e, qev, now);
    }
    AdvanceQueryExplained(p, e, qev, now);
    StepNames(p, e, b);
    StepNamesQuery(p, e, qev, now);
    assert NamesOf(p)[e] == (p.queries[e].id, p.queries[e].q.messaged) == NamesOf(b)[e];
    hide PoolInv, NamesOf, NamedIds;
    assert PassAt(b, 0, p.queries[e].id, e, 1);
    SameFrom(p, b, 0, e, pos, now);
    hide PassStarts, PassAt;
    OthersStart(b, 0, p.queries[e].id, e, 1, now, pos);
  }

  /** The step of an event for the query at position e. */
  lemma OwnStepStarts(p: Pool, ev: PoolEvent, now: Time, pos: nat)
    requires PoolInv(p) && EventOk(p, ev) && NamedIds(NamesOf(p)) && pos < |p.queries|
    requires !ev.AddQuery? && !ev.Poll? && IndexOf(p.queries, ev.id) < |p.queries|
    ensures StartsAt(p, ev, now, pos) <==> Sends(p, PoolAdvance(p, ev, now).1, pos)
  {
    var e, qev := IndexOf(p.queries, ev.id), Target(ev).1;
    TargetFits(p, ev, e);
    InvFits(p, e);
    AdvanceQueryKeeps(p, e, qev, now);
    StepNamesQuery(p, e, qev, now);
    var (b, out) := AdvanceQuery(p, e, qev, now);
    assert pos != e ==> p.queries[pos].id != p.queries[e].id;
    if p.queries[e].q.messaged == [] {
      UnstartedStep(p, e, qev, now);
    }
    if out.None? && pos != e {
      AfterOwnStep(p, e, qev, now, b, pos);
    }
    hide AdvanceQuery, KeysFit, EventFits, OpenAfter, Others, PoolInv, NamesOf, NamedIds, PassStarts, CanStart;
  }

  /** Exactly which query's first message a step sends, if any. */
  lemma StepStartsIff(p: Pool, ev: PoolEvent, now: Time, pos: nat)
    requires PoolInv(p) && EventOk(p, ev) && NamedIds(NamesOf(p)) && pos < |AfterAdd(p, ev).queries|
    ensures StartsAt(p, ev, now, pos) <==> Sends(AfterAdd(p, ev), PoolAdvance(p, ev, now).1, pos)
  {
    var a := AfterAdd(p, ev);
    if EventPos(a, ev) >= 0 {
      OwnStepStarts(p, ev, now, pos);
    } else {
      AfterAddKeeps(p, ev);
      AddBounded(p, ev, 0);
      hide AdvanceQuery, KeysFit, EventFits, OpenAfter, Others, PoolInv, NamesOf, NamedIds, PassStarts;
      assert PassAt(a, 0, "", -1, 0);
      hide PassAt, AfterAdd;
      OthersStart(a, 0, "", -1, 0, now, pos);
    }
  }

  // ---------- the number over a step ----------

  lemma QueryStepBusy(q: QueryState, ev: Event, now: Time)
    requires Inv(q) && EventFits(q, ev)
    ensures KeysFit(q) && (!Advance(q, ev, now).0.finished ==> Advance(q, ev, now).0.inFlight > 0)
  {
    SomebodyIsAsked(q, ev, now);
    QueryRuns.AdvancePromises(q, ev, now);
    var r := Advance(q, ev, now).0;
    hide Advance;
    if !r.finished {
      var k :| k in r.nodes && r.nodes[k].Waiting?;
      assert k in WaitingSet(r.nodes);
    }
  }

  lemma AdvanceQueryBusy(p: Pool, i: nat, ev: Event, now: Time)
    requires PoolInv(p) && Busy(p) && i < |p.queries| && EventFits(p.queries[i].q, ev)
    ensures KeysFit(p.queries[i].q) && Busy(AdvanceQuery(p, i, ev, now).0)
  {
    var q := p.queries[i].q;
    assert QueryOk(p, q);
    QueryStepBusy(q, ev, now);
    QueryRuns.AdvancePromises(q, ev, now);
    var (r, out) := Advance(q, ev, now);
    assert out != Finished ==> IsBusy(r);
    hide Advance, Inv, PoolInv, KeysFit, EventFits, QueryRuns.Promised, IsBusy, Outcome;
    OutcomeBusy(p, i, r, out, now);
  }

  lemma OutcomeBusy(p: Pool, i: nat, r: QueryState, out: Output, now: Time)
    requires Busy(p) && i < |p.queries| && (out != Finished ==> IsBusy(r))
    ensures Busy(Outcome(p, i, r, out, now).0)
  {
    hide IsBusy, TimedOut;
    var w := Outcome(p, i, r, out, now).0;
    if |w.queries| == |p.queries| {
      assert forall m :: 0 <= m < |w.queries| && m != i ==> w.queries[m] == p.queries[m];
    } else {
      assert forall m :: 0 <= m < |w.queries| ==> w.queries[m] == p.queries[if m < i then m else m + 1];
    }
  }

  lemma {:induction false} OthersBusy(p: Pool, j: nat, eventID: QueryID, inFlight: nat, now: Time)
    requires PoolInv(p) && Busy(p) && j <= |p.queries|
    ensures Busy(Others(p, j, eventID, inFlight, now).0)
    decreases |p.queries| - j
  {
    hide Others, AdvanceQuery, PoolInv, Busy, KeysFit, EventFits;
    if j < |p.queries| {
      OthersUnfold(p, j, eventID, inFlight, now);
      if p.queries[j].id == eventID {
        OthersBusy(p, j + 1, eventID, inFlight, now);
      } else {
        AdvanceQueryBusy(p, j, NoEvent, now);
        StepNamesQuery(p, j, NoEvent, now);
        var (r, out) := AdvanceQuery(p, j, NoEvent, now);
        if out.None? && inFlight + 1 < p.cfg.concurrency {
          OthersBusy(r, j + 1, eventID, inFlight + 1, now);
        }
      }
    } else {
      OthersAtEnd(p, eventID, inFlight, now);
    }
  }

  lemma OthersAtEnd(p: Pool, eventID: QueryID, inFlight: nat, now: Time)
    requires PoolInv(p)
    ensures Others(p, |p.queries|, eventID, inFlight, now).0 == p
  {}

  /** After every step a query that has sent a message has a request out. */
  lemma StepKeepsBusy(p: Pool, ev: PoolEvent, now: Time)
    requires PoolInv(p) && Busy(p) && PoolEventFits(p, ev)
    ensures Busy(PoolAdvance(p, ev, now).0)
  {
    AfterAddKeeps(p, ev);
    var a := AfterAdd(p, ev);
    assert Busy(a);
    hide Busy, PoolInv, AdvanceQuery, Others;
    var (id, qev) := Target(ev);
    var e := IndexOf(a.queries, id);
    if !ev.AddQuery? && !ev.Poll? && e < |a.queries| {
      TargetFits(a, ev, e);
      AdvanceQueryKeeps(a, e, qev, now);
      AdvanceQueryBusy(a, e, qev, now);
      var (b, out) := AdvanceQuery(a, e, qev, now);
      if out.None? {
        OthersBusy(b, 0, id, 1, now);
      }
    } else if a.queries != [] {
      OthersBusy(a, 0, "", 0, now);
    }
  }

  /** What every reachable pool satisfies, and what the number of waiting queries is measured in. */
  ghost predicate Sound(p: Pool) {
    PoolInv(p) && NamedIds(NamesOf(p)) && Busy(p)
  }

  lemma StepSound(p: Pool, ev: PoolEvent, now: Time)
    requires Sound(p) && EventOk(p, ev)
    ensures var r := PoolAdvance(p, ev, now).0; Sound(r) && r.cfg == p.cfg && r.self == p.self
  {
    hide PoolAdvance, PoolInv, Busy, NamedIds;
    StepKeeps(p, ev, now);
    StepKeepsBusy(p, ev, now);
  }

  /** A new query has not sent anything. */
  lemma AddStarted(p: Pool, ev: PoolEvent)
    ensures Started(NamesOf(AfterAdd(p, ev))) == Started(NamesOf(p))
  {
    var a := AfterAdd(p, ev);
    if a != p {
      assert NamesOf(a) == NamesOf(p) + [(ev.id, [])];
      StartedAppend(NamesOf(p), (ev.id, []));
    }
  }

  lemma {:induction false} StartedAppend(a: Names, x: (QueryID, seq<Key>))
    ensures Started(a + [x]) == Started(a) + if x.1 != [] then 1 else 0
  {
    if a == [] {
      assert (a + [x])[1..] == [];
    } else {
      assert (a + [x])[1..] == a[1..] + [x];
      StartedAppend(a[1..], x);
    }
  }

  /** The step makes the number exceed the limit: that many queries wait, and it starts one more. */
  ghost predicate Exceeds(p: Pool, ev: PoolEvent, now: Time) {
    HowManyWait(p.queries) == p.cfg.concurrency && exists pos: nat :: StartsAt(p, ev, now, pos)
  }

  lemma NameAt(p: Pool, i: nat)
    requires i < |p.queries|
    ensures NamesOf(p)[i] == (p.queries[i].id, p.queries[i].q.messaged)
  {}

  lemma SendsAdds(a: Pool, r: Pool, out: PoolOutput, at: nat, pos: nat)
    requires PoolInv(a) && Explains(NamesOf(a), NamesOf(r), out, at) && Sends(a, out, pos)
    ensures Started(NamesOf(r)) == Started(NamesOf(a)) + 1
  {
    NameAt(a, pos);
    NameAt(a, at);
    NamedOnce(a, at, out.id);
    NamedOnce(a, pos, out.id);
    hide PoolInv, NamesOf, Started;
    ExplainsStarted(NamesOf(a), NamesOf(r), out, at);
  }

  lemma SendsNothing(a: Pool, r: Pool, out: PoolOutput, at: nat)
    requires PoolInv(a) && Explains(NamesOf(a), NamesOf(r), out, at)
    requires forall pos: nat :: pos < |a.queries| ==> !Sends(a, out, pos)
    ensures Started(NamesOf(r)) <= Started(NamesOf(a))
  {
    if out.QueryMessage? {
      NameAt(a, at);
      assert !Sends(a, out, at);
    }
    hide PoolInv, NamesOf, Started, Sends;
    ExplainsStarted(NamesOf(a), NamesOf(r), out, at);
  }

  /** A step sends at most one first message, and does so exactly if it starts a query. */
  lemma StepAdds(p: Pool, ev: PoolEvent, now: Time)
    requires PoolInv(p) && NamedIds(NamesOf(p)) && EventOk(p, ev)
    ensures var r := PoolAdvance(p, ev, now).0;
      if exists pos: nat :: StartsAt(p, ev, now, pos) then Started(NamesOf(r)) == Started(NamesOf(p)) + 1
      else Started(NamesOf(r)) <= Started(NamesOf(p))
  {
    hide PoolAdvance, PoolInv, NamedIds, StartsAt, Started, Sends, Explains, NamesOf;
    AddBounded(p, ev, 0);
    AfterAddKeeps(p, ev);
    AddStarted(p, ev);
    var at := PoolStepExplained(p, ev, now);
    var a, r, out := AfterAdd(p, ev), PoolAdvance(p, ev, now).0, PoolAdvance(p, ev, now).1;
    if pos: nat :| StartsAt(p, ev, now, pos) {
      StartsOne(p, ev, now, pos);
      StepStartsIff(p, ev, now, pos);
      SendsAdds(a, r, out, at, pos);
    } else {
      forall pos: nat | pos < |a.queries|
        ensures !Sends(a, out, pos)
      {
        StepStartsIff(p, ev, now, pos);
      }
      SendsNothing(a, r, out, at);
    }
  }

  /** For any limit, any event and any pool within its limit: the step exceeds it exactly if as many queries as it
      allows wait already and the step starts another one. */
  lemma StepExceedsIff(p: Pool, ev: PoolEvent, now: Time)
    requires Sound(p) && EventOk(p, ev) && HowManyWait(p.queries) <= p.cfg.concurrency
    ensures HowManyWait(PoolAdvance(p, ev, now).0.queries) > p.cfg.concurrency <==> Exceeds(p, ev, now)
  {
    hide PoolAdvance, PoolInv, NamedIds, StartsAt, Started, NamesOf, Busy;
    StepSound(p, ev, now);
    StepAdds(p, ev, now);
    BusyWaiting(p);
    BusyWaiting(PoolAdvance(p, ev, now).0);
  }

  lemma StartsOne(p: Pool, ev: PoolEvent, now: Time, pos: nat)
    requires StartsAt(p, ev, now, pos)
    ensures pos < |AfterAdd(p, ev).queries|
  {}

  // ---------- where only the first queries of the list have started ----------

  /** The first limit queries have all sent something. */
  ghost predicate Full(a: Names, limit: nat) {
    limit <= |a| && forall i :: 0 <= i < limit ==> a[i].1 != []
  }

  /** If only the first limit queries have sent anything, no more than that many have; and that many have exactly
      if each of them has. */
  lemma {:induction false} StartedBounded(a: Names, limit: nat)
    requires Bounded(a, limit)
    ensures Started(a) <= limit && (Started(a) == limit <==> Full(a, limit))
  {
    if a != [] {
      var next := if limit == 0 then 0 else limit - 1;
      assert forall i :: 0 <= i < |a| - 1 ==> a[1..][i] == a[i + 1];
      StartedBounded(a[1..], next);
      assert limit > 0 ==> (Full(a, limit) <==> a[0].1 != [] && Full(a[1..], next)) by {
        if limit > 0 && a[0].1 != [] && Full(a[1..], next) {
          assert forall i :: 1 <= i < limit ==> a[i] == a[1..][i - 1];
        }
      }
    }
  }

  lemma BoundedKeepsWaiting(p: Pool)
    requires Sound(p) && Bounded(NamesOf(p), p.cfg.concurrency)
    ensures HowManyWait(p.queries) <= p.cfg.concurrency
  {
    BusyWaiting(p);
    StartedBounded(NamesOf(p), p.cfg.concurrency);
  }

  /** All the places the limit allows are taken by the first queries of the list. */
  ghost predicate FrontBusy(p: Pool) {
    && p.cfg.concurrency <= |p.queries|
    && forall i :: 0 <= i < p.cfg.concurrency ==> p.queries[i].q.messaged != []
  }

  /** With the first places taken, what a step starts is past them, so it is what the event names. */
  lemma FrontBusyStarts(p: Pool, ev: PoolEvent, now: Time)
    requires FrontBusy(p) && p.cfg.concurrency >= 2 && Bounded(NamesOf(p), p.cfg.concurrency)
    ensures (exists pos: nat :: StartsAt(p, ev, now, pos)) <==> StartsBeyond(p, ev)
  {
    forall pos: nat | StartsAt(p, ev, now, pos)
      ensures StartsBeyond(p, ev)
    {
      StartIsBeyond(p, ev, now, pos);
    }
    if StartsBeyond(p, ev) {
      hide OpenAfter, Quiet, PassStarts;
      assert NamesOf(p)[IndexOf(p.queries, ev.id)].1 == [];
      assert StartsAt(p, ev, now, IndexOf(p.queries, ev.id));
    }
  }

  lemma StartIsBeyond(p: Pool, ev: PoolEvent, now: Time, pos: nat)
    requires FrontBusy(p) && p.cfg.concurrency >= 2 && StartsAt(p, ev, now, pos)
    ensures StartsBeyond(p, ev)
  {
    hide OpenAfter, Quiet;
    assert pos >= p.cfg.concurrency;
  }

  /** Where only the first limit queries have started, and the limit is at least 2: a step exceeds it exactly if all
      of them have, and the event starts a query past the limit. */
  lemma BoundedExceedsIff(p: Pool, ev: PoolEvent, now: Time)
    requires Sound(p) && EventOk(p, ev) && p.cfg.concurrency >= 2 && Bounded(NamesOf(p), p.cfg.concurrency)
    ensures HowManyWait(PoolAdvance(p, ev, now).0.queries) > p.cfg.concurrency <==> FrontBusy(p) && StartsBeyond(p, ev)
  {
    BoundedKeepsWaiting(p);
    StepExceedsIff(p, ev, now);
    BusyWaiting(p);
    StartedBounded(NamesOf(p), p.cfg.concurrency);
    FrontNames(p);
    hide PoolAdvance, Sound, NamesOf, Bounded, StartsAt, StartsBeyond, FrontBusy, Full;
    if FrontBusy(p) {
      FrontBusyStarts(p, ev, now);
    }
  }

  lemma FrontNames(p: Pool)
    ensures FrontBusy(p) <==> Full(NamesOf(p), p.cfg.concurrency)
  {
    assert forall i :: 0 <= i < |p.queries| ==> NamesOf(p)[i].1 == p.queries[i].q.messaged;
  }

  // ---------- runs ----------

  lemma RunSoundNext(p: Pool, steps: seq<PoolInput>)
    requires Sound(p) && RunFits(p, steps) && steps != []
    ensures var next := PoolAdvance(p, steps[0].ev, steps[0].now).0;
      Sound(next) && RunFits(next, steps[1..]) && next.cfg == p.cfg && next.self == p.self
  {
    hide PoolAdvance, PoolInv, NamedIds, Busy;
    StepSound(p, steps[0].ev, steps[0].now);
    RunFitsNext(p, steps);
  }

  /** No step of the run exceeds the limit. */
  ghost predicate NeverExceeds(p: Pool, steps: seq<PoolInput>)
    requires Sound(p) && RunFits(p, steps)
    decreases |steps|
  {
    steps == [] || (
      RunSoundNext(p, steps);
      && !Exceeds(p, steps[0].ev, steps[0].now)
      && NeverExceeds(PoolAdvance(p, steps[0].ev, steps[0].now).0, steps[1..]))
  }

  /** At the start of the run and after each of its steps no more queries wait than the limit allows. */
  ghost predicate AlwaysWithin(p: Pool, steps: seq<PoolInput>)
    requires Sound(p) && RunFits(p, steps)
    decreases |steps|
  {
    HowManyWait(p.queries) <= p.cfg.concurrency && (
      steps == [] || (
        RunSoundNext(p, steps);
        AlwaysWithin(PoolAdvance(p, steps[0].ev, steps[0].now).0, steps[1..])))
  }

  /** A run, for any limit, stays within it exactly if none of its steps starts a query while as many as the limit
      allows wait already. */
  lemma {:induction false} RunWithinIff(p: Pool, steps: seq<PoolInput>)
    requires Sound(p) && RunFits(p, steps) && HowManyWait(p.queries) <= p.cfg.concurrency
    ensures AlwaysWithin(p, steps) <==> NeverExceeds(p, steps)
    decreases |steps|
  {
    if steps != [] {
      RunSoundNext(p, steps);
      StepExceedsIff(p, steps[0].ev, steps[0].now);
      hide PoolAdvance, Sound, RunFits, Exceeds;
      var next := PoolAdvance(p, steps[0].ev, steps[0].now).0;
      if HowManyWait(next.queries) <= p.cfg.concurrency {
        RunWithinIff(next, steps[1..]);
      }
    }
  }

  lemma EmptyPoolSound(self: Key, cfg: PoolConfig)
    requires GoodPoolConfig(cfg)
    ensures Sound(EmptyPool(self, cfg)) && HowManyWait(EmptyPool(self, cfg).queries) == 0
  {}
}
