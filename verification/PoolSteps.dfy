/** A step of the pool in closed form: what becomes of the query an event is for, and how far the pass over the other
    queries gets, all in terms of what each query does on its own. */
module PoolSteps {
  import opened Options
  import opened Times
  import opened QueryModel
  import opened QueryProofs
  import opened QueryRuns
  import opened PoolModel
  import opened PoolProofs
  import opened PoolBound

  // ---------- one query ----------

  /** What the pool makes of the query at position i, which is in state r and said out. A message is passed on, and a
      query that is over leaves the pool. So does one that waits when more than the pool's timeout has passed since its
      first message; any other one that waits stays, and the pool says nothing. */
  ghost predicate Acts(p: Pool, i: nat, r: QueryState, out: Output, now: Time, s: Pool, answer: Option<PoolOutput>)
    requires i < |p.queries|
  {
    var id := p.queries[i].id;
    var stays, leaves := p.queries[i := Entry(id, r)], p.queries[..i] + p.queries[i + 1..];
    match out
    case WaitingMessage(node) => s == p.(queries := stays) && answer == Some(QueryMessage(id, node))
    case Finished => s == p.(queries := leaves) && answer == Some(QueryFinished(id))
    case _ =>
      r.stats.start.Some? &&
      if now > r.stats.start.value + p.cfg.timeout then s == p.(queries := leaves) && answer == Some(QueryTimeout(id))
      else s == p.(queries := stays) && answer == None
  }

  /** A query that waits for an answer has sent its first message. */
  lemma WaitingStarted(q: QueryState, ev: Event, r: QueryState, out: Output)
    requires Promised(q, ev, r, out) && (out == WaitingAtCapacity || out == WaitingWithCapacity)
    ensures r.stats.start.Some?
  {
    hide After, EnoughAnswered;
    assert r.inFlight > 0;
    var k :| k in WaitingSet(r.nodes);
    assert k in r.messaged;
  }

  lemma OutcomeActs(p: Pool, i: nat, r: QueryState, out: Output, now: Time)
    requires i < |p.queries| && (out == WaitingAtCapacity || out == WaitingWithCapacity ==> r.stats.start.Some?)
    ensures Acts(p, i, r, out, now, Outcome(p, i, r, out, now).0, Outcome(p, i, r, out, now).1)
  {}

  /** Advancing one query, whatever the event. */
  lemma QueryActs(p: Pool, i: nat, ev: Event, now: Time)
    requires PoolInv(p) && i < |p.queries| && EventFits(p.queries[i].q, ev)
    ensures KeysFit(p.queries[i].q)
    ensures var (r, out) := Advance(p.queries[i].q, ev, now);
      var (s, answer) := AdvanceQuery(p, i, ev, now);
      Acts(p, i, r, out, now, s, answer)
  {
    var q := p.queries[i].q;
    assert QueryOk(p, q);
    AdvancePromises(q, ev, now);
    var (r, out) := Advance(q, ev, now);
    hide Advance, Inv, PoolInv, KeysFit, EventFits, Promised, Outcome, Acts;
    if out == WaitingAtCapacity || out == WaitingWithCapacity {
      WaitingStarted(q, ev, r, out);
    }
    OutcomeActs(p, i, r, out, now);
  }

  // ---------- the pass ----------

  /** What polling the query at position i makes of it. */
  ghost function Polled(p: Pool, i: nat, now: Time): (QueryState, Output)
    requires PoolInv(p) && i < |p.queries|
  {
    InvFits(p, i);
    Advance(p.queries[i].q, NoEvent, now)
  }

  /** Polled, the query waits for answers and is in time. */
  ghost predicate Waits(p: Pool, i: nat, now: Time)
    requires PoolInv(p) && i < |p.queries|
  {
    var (r, out) := Polled(p, i, now);
    && (out == WaitingAtCapacity || out == WaitingWithCapacity)
    && r.stats.start.Some? && now <= r.stats.start.value + p.cfg.timeout
  }

  /** The first n queries have been polled, but for the one at position e. */
  ghost function Passed(p: Pool, e: int, n: nat, now: Time): (r: Pool)
    requires PoolInv(p)
    ensures |r.queries| == |p.queries| && r.self == p.self && r.cfg == p.cfg
  {
    p.(queries := seq(|p.queries|, i requires 0 <= i < |p.queries| =>
      if i < n && i != e then Entry(p.queries[i].id, Polled(p, i, now).0) else p.queries[i]))
  }

  /** The pass that leaves out position e ends at position n: at the first query that does not only wait, or that is one
      of as many as the limit allows; or it goes through. */
  ghost predicate PassEnds(p: Pool, e: int, n: nat, now: Time)
    requires PoolInv(p)
  {
    && n <= |p.queries|
    && (n < |p.queries| ==> n != e && (!Waits(p, n, now) || Advanced(n + 1, e) >= p.cfg.concurrency))
    && forall i :: 0 <= i < n && i != e ==> Waits(p, i, now) && Advanced(i + 1, e) < p.cfg.concurrency
  }

  /** What a pass that ends at position n comes to. */
  ghost predicate PassMeans(p: Pool, e: int, n: nat, now: Time, res: (Pool, PoolOutput))
    requires PoolInv(p) && n <= |p.queries|
  {
    if n == |p.queries| then res == (Passed(p, e, n, now), if p.queries == [] then Idle else WithCapacity)
    else if Waits(p, n, now) then res == (Passed(p, e, n + 1, now), AtCapacity)
    else Acts(Passed(p, e, n, now), n, Polled(p, n, now).0, Polled(p, n, now).1, now, res.0, Some(res.1))
  }

  lemma PassedAt(p: Pool, e: int, n: nat, now: Time)
    requires PoolInv(p) && n < |p.queries|
    ensures Passed(p, e, n, now).queries[n] == p.queries[n]
    ensures Passed(p, e, n + 1, now) ==
      if n == e then Passed(p, e, n, now)
      else var l := Passed(p, e, n, now); l.(queries := l.queries[n := Entry(p.queries[n].id, Polled(p, n, now).0)])
    ensures Passed(p, e, 0, now) == p
  {
    hide Polled, PoolInv;
    var l := Passed(p, e, n, now);
    if n == e {
      assert Passed(p, e, n + 1, now).queries == l.queries;
    } else {
      assert Passed(p, e, n + 1, now).queries == l.queries[n := Entry(p.queries[n].id, Polled(p, n, now).0)];
    }
    assert Passed(p, e, 0, now).queries == p.queries;
  }

  /** Only the query at position e has the event's name. */
  lemma NamedAlone(p: Pool, id: QueryID, e: int, i: nat)
    requires PoolInv(p) && NamedIds(NamesOf(p)) && EventAt(NamesOf(p), id, e) && i < |p.queries|
    ensures p.queries[i].id == id <==> i == e
  {
    assert NamesOf(p)[i].0 == p.queries[i].id;
    if e >= 0 {
      assert NamesOf(p)[e].0 == p.queries[e].id;
    }
  }

  /** Polling the query that the pass has got to. */
  lemma PolledInPass(p: Pool, e: int, j: nat, now: Time)
    requires PoolInv(p) && j < |p.queries| && j != e && PoolInv(Passed(p, e, j, now))
    ensures KeysFit(p.queries[j].q)
    ensures var l := Passed(p, e, j, now);
      && KeysFit(l.queries[j].q) && EventFits(l.queries[j].q, NoEvent)
      && var (s, answer) := AdvanceQuery(l, j, NoEvent, now);
      && Acts(l, j, Polled(p, j, now).0, Polled(p, j, now).1, now, s, answer)
      && (Waits(p, j, now) <==> answer == None)
      && (answer == None ==> s == Passed(p, e, j + 1, now))
  {
    PassedAt(p, e, j, now);
    InvFits(p, j);
    QueryActs(Passed(p, e, j, now), j, NoEvent, now);
    hide Advance, PoolInv, KeysFit, Passed, AdvanceQuery;
  }

  /** The pass, from position j on, comes to what a pass that ends at position n comes to. */
  ghost predicate Goes(p: Pool, e: int, id: QueryID, j: nat, n: nat, now: Time) {
    && PoolInv(p) && j <= |p.queries| && n <= |p.queries| && PoolInv(Passed(p, e, j, now))
    && PassMeans(p, e, n, now, Others(Passed(p, e, j, now), j, id, Advanced(j, e), now))
  }

  lemma PassStops(p: Pool, e: int, id: QueryID, n: nat, now: Time)
    requires PoolInv(p) && NamedIds(NamesOf(p)) && EventAt(NamesOf(p), id, e)
    requires PassEnds(p, e, n, now) && PoolInv(Passed(p, e, n, now))
    ensures Goes(p, e, id, n, n, now)
  {
    var l := Passed(p, e, n, now);
    if n == |p.queries| {
      OthersAtTheEnd(l, id, Advanced(n, e), now);
    } else {
      PassedAt(p, e, n, now);
      NamedAlone(p, id, e, n);
      OthersUnfold(l, n, id, Advanced(n, e), now);
      PolledInPass(p, e, n, now);
    }
    hide Others, PoolInv, NamedIds, NamesOf, Passed, Polled, Acts, AdvanceQuery, KeysFit, EventFits, Waits;
  }

  /** The pass goes on past position j. */
  lemma OthersNext(p: Pool, e: int, id: QueryID, j: nat, now: Time)
    requires PoolInv(p) && NamedIds(NamesOf(p)) && EventAt(NamesOf(p), id, e)
    requires j < |p.queries| && PoolInv(Passed(p, e, j, now))
    requires j == e || (Waits(p, j, now) && Advanced(j + 1, e) < p.cfg.concurrency)
    ensures PoolInv(Passed(p, e, j + 1, now))
    ensures Others(Passed(p, e, j, now), j, id, Advanced(j, e), now) ==
      Others(Passed(p, e, j + 1, now), j + 1, id, Advanced(j + 1, e), now)
  {
    hide *;
    var l := Passed(p, e, j, now);
    PassedAt(p, e, j, now);
    NamedAlone(p, id, e, j);
    SameSize(p, e, j, now);
    OthersUnfold(l, j, id, Advanced(j, e), now);
    AdvancedNext(j, e);
    if j != e {
      PolledInPass(p, e, j, now);
    }
  }

  lemma SameSize(p: Pool, e: int, j: nat, now: Time)
    requires PoolInv(p) && j < |p.queries|
    ensures |Passed(p, e, j, now).queries| == |Passed(p, e, j + 1, now).queries| == |p.queries|
    ensures Passed(p, e, j, now).cfg == p.cfg
  {}

  lemma AdvancedNext(j: nat, e: int)
    ensures Advanced(j + 1, e) == if j == e then Advanced(j, e) else Advanced(j, e) + 1
  {}

  lemma PassGoesOn(p: Pool, e: int, id: QueryID, j: nat, n: nat, now: Time)
    requires PoolInv(p) && NamedIds(NamesOf(p)) && EventAt(NamesOf(p), id, e)
    requires j < n && PassEnds(p, e, n, now) && PoolInv(Passed(p, e, j, now))
    ensures PoolInv(Passed(p, e, j + 1, now)) && (Goes(p, e, id, j + 1, n, now) ==> Goes(p, e, id, j, n, now))
  {
    OthersNext(p, e, id, j, now);
    hide Others, PoolInv, NamedIds, NamesOf, Passed, Waits, EventAt, PassMeans;
  }

  lemma {:induction false} PassFrom(p: Pool, e: int, id: QueryID, j: nat, n: nat, now: Time)
    requires PoolInv(p) && NamedIds(NamesOf(p)) && EventAt(NamesOf(p), id, e)
    requires j <= n && PassEnds(p, e, n, now) && PoolInv(Passed(p, e, j, now))
    ensures Goes(p, e, id, j, n, now)
    decreases n - j
  {
    hide *;
    if j == n {
      PassStops(p, e, id, n, now);
    } else {
      PassGoesOn(p, e, id, j, n, now);
      PassFrom(p, e, id, j + 1, n, now);
    }
  }

  lemma OthersAtTheEnd(p: Pool, id: QueryID, inFlight: nat, now: Time)
    requires PoolInv(p)
    ensures Others(p, |p.queries|, id, inFlight, now) == (p, if inFlight > 0 then WithCapacity else Idle)
  {}

  lemma {:induction false} PassEndsFrom(p: Pool, e: int, j: nat, now: Time) returns (n: nat)
    requires PoolInv(p) && j <= |p.queries|
    requires forall i :: 0 <= i < j && i != e ==> Waits(p, i, now) && Advanced(i + 1, e) < p.cfg.concurrency
    ensures PassEnds(p, e, n, now)
    decreases |p.queries| - j
  {
    hide PoolInv, Waits;
    if j < |p.queries| && (j == e || (Waits(p, j, now) && Advanced(j + 1, e) < p.cfg.concurrency)) {
      n := PassEndsFrom(p, e, j + 1, now);
    } else {
      n := j;
    }
  }

  /** res is what the pass that leaves out position e comes to, at the one position where it ends. */
  ghost predicate PassedOver(p: Pool, e: int, now: Time, res: (Pool, PoolOutput))
    requires PoolInv(p)
  {
    exists n :: PassEnds(p, e, n, now) && PassMeans(p, e, n, now, res)
  }

  lemma PassIs(p: Pool, e: int, id: QueryID, now: Time)
    requires PoolInv(p) && NamedIds(NamesOf(p)) && EventAt(NamesOf(p), id, e)
    ensures PassedOver(p, e, now, Others(p, 0, id, Advanced(0, e), now))
  {
    hide *;
    var n := PassEndsFrom(p, e, 0, now);
    NothingPassed(p, e, now);
    PassFrom(p, e, id, 0, n, now);
    PassFound(p, e, id, n, now);
  }

  lemma NothingPassed(p: Pool, e: int, now: Time)
    requires PoolInv(p)
    ensures Passed(p, e, 0, now) == p
  {
    assert Passed(p, e, 0, now).queries == p.queries;
  }

  lemma PassFound(p: Pool, e: int, id: QueryID, n: nat, now: Time)
    requires PoolInv(p) && PassEnds(p, e, n, now) && Passed(p, e, 0, now) == p && Goes(p, e, id, 0, n, now)
    ensures PassedOver(p, e, now, Others(p, 0, id, Advanced(0, e), now))
  {
    hide PoolInv, PassEnds, PassMeans, Others, Passed;
  }

  // ---------- the step ----------

  /** a is the pool once an event has been looked at: a query under a new name joins the end of the list, with the
      nodes it is given to contact; a name in use changes nothing. */
  ghost predicate Joined(p: Pool, ev: PoolEvent, a: Pool) {
    match ev
    case AddQuery(id, target, known) =>
      if exists i :: 0 <= i < |p.queries| && p.queries[i].id == id then a == p else (
        && |a.queries| == |p.queries| + 1
        && var q := a.queries[|p.queries|].q;
        && a == p.(queries := p.queries + [Entry(id, q)])
        && q.self == p.self && q.target == target && q.cfg == p.cfg.queryCfg && !q.finished && q.messaged == []
        && q.inFlight == 0 && q.stats == Stats(None, None, 0, 0, 0)
        && q.nodes.Keys == (set k | k in known) - {p.self} && forall k :: k in q.nodes ==> q.nodes[k] == NotContacted)
    case _ => a == p
  }

  lemma JoinedAfter(p: Pool, ev: PoolEvent)
    requires PoolInv(p) && PoolEventFits(p, ev)
    ensures Joined(p, ev, AfterAdd(p, ev))
  {
    if ev.AddQuery? {
      hide Inv;
      NewQueryInv(p.self, ev.target, ev.known, p.cfg.queryCfg);
      hide NewQuery;
    }
  }

  /** res is what an event for the query named id comes to: that query takes the event, and if it then only waits, the
      pass goes over the others. Without such a query it is a poll. */
  ghost predicate NamedStep(p: Pool, id: QueryID, ev: Event, now: Time, res: (Pool, PoolOutput))
    requires PoolInv(p)
  {
    var e := IndexOf(p.queries, id);
    if e == |p.queries| then PassedOver(p, -1, now, res) else (
      && KeysFit(p.queries[e].q) && EventFits(p.queries[e].q, ev)
      && var (r, out) := Advance(p.queries[e].q, ev, now);
      && var (b, answer) := AdvanceQuery(p, e, ev, now);
      && Acts(p, e, r, out, now, b, answer) && PoolInv(b)
      && if answer.Some? then res == (b, answer.value) else PassedOver(b, e, now, res))
  }

  /** res is what an event comes to. */
  ghost predicate StepMeans(p: Pool, ev: PoolEvent, now: Time, res: (Pool, PoolOutput))
    requires PoolInv(p) && PoolEventFits(p, ev)
  {
    var a := AfterAdd(p, ev);
    && Joined(p, ev, a) && PoolInv(a)
    && match ev
       case StopQuery(id) => NamedStep(a, id, Cancel, now, res)
       case MessageResponse(id, node, closer) => NamedStep(a, id, Response(node, closer), now, res)
       case MessageFailure(id, node) => NamedStep(a, id, Failure(node), now, res)
       case _ => PassedOver(a, -1, now, res)
  }

  lemma EmptyPass(p: Pool, now: Time)
    requires PoolInv(p) && p.queries == []
    ensures PassedOver(p, -1, now, (p, Idle))
  {
    NothingPassed(p, -1, now);
    assert PassEnds(p, -1, 0, now);
  }

  lemma NobodyNamed(p: Pool, now: Time)
    requires PoolInv(p) && NamedIds(NamesOf(p))
    ensures PassedOver(p, -1, now, if p.queries == [] then (p, Idle) else Others(p, 0, "", 0, now))
  {
    if p.queries == [] {
      EmptyPass(p, now);
    } else {
      PassIs(p, -1, "", now);
    }
  }

  lemma AdvanceNamed(p: Pool, id: QueryID, ev: Event, now: Time)
    requires PoolInv(p) && NamedIds(NamesOf(p)) && IndexOf(p.queries, id) < |p.queries|
    requires EventFits(p.queries[IndexOf(p.queries, id)].q, ev)
    ensures KeysFit(p.queries[IndexOf(p.queries, id)].q)
    ensures var (b, answer) := AdvanceQuery(p, IndexOf(p.queries, id), ev, now);
      && PoolInv(b)
      && NamedStep(p, id, ev, now, if answer.Some? then (b, answer.value) else Others(b, 0, id, 1, now))
  {
    hide *;
    var e := IndexOf(p.queries, id);
    QueryActs(p, e, ev, now);
    AdvanceQueryKeeps(p, e, ev, now);
    var (r, out) := Advance(p.queries[e].q, ev, now);
    var (b, answer) := AdvanceQuery(p, e, ev, now);
    if answer == None {
      NamesKept(p, e, r, out, now, b);
      FirstPlace(e);
      PassIs(b, e, id, now);
    }
    NamedStepIs(p, id, ev, now);
  }

  lemma NamesKept(p: Pool, e: nat, r: QueryState, out: Output, now: Time, b: Pool)
    requires e < |p.queries| && NamedIds(NamesOf(p)) && Acts(p, e, r, out, now, b, None)
    ensures NamedIds(NamesOf(b)) && EventAt(NamesOf(b), p.queries[e].id, e)
  {
    assert |b.queries| == |p.queries| && forall i :: 0 <= i < |b.queries| ==> b.queries[i].id == p.queries[i].id;
    assert forall i :: 0 <= i < |b.queries| ==> NamesOf(b)[i].0 == NamesOf(p)[i].0;
  }

  lemma FirstPlace(e: nat)
    ensures Advanced(0, e) == 1
  {}

  lemma NamedStepIs(p: Pool, id: QueryID, ev: Event, now: Time)
    requires PoolInv(p) && IndexOf(p.queries, id) < |p.queries|
    requires KeysFit(p.queries[IndexOf(p.queries, id)].q) && EventFits(p.queries[IndexOf(p.queries, id)].q, ev)
    requires var e := IndexOf(p.queries, id);
      var (r, out) := Advance(p.queries[e].q, ev, now);
      var (b, answer) := AdvanceQuery(p, e, ev, now);
      Acts(p, e, r, out, now, b, answer) && PoolInv(b)
    ensures var e := IndexOf(p.queries, id);
      var (b, answer) := AdvanceQuery(p, e, ev, now);
      forall res :: (if answer.Some? then res == (b, answer.value) else PassedOver(b, e, now, res)) ==>
        NamedStep(p, id, ev, now, res)
  {
    hide Advance, AdvanceQuery, PoolInv, KeysFit, EventFits, Acts, PassedOver;
  }

  /** A step comes to what the event means for the query it names and for the pass over the others. */
  lemma StepIs(p: Pool, ev: PoolEvent, now: Time)
    requires PoolInv(p) && EventOk(p, ev) && NamedIds(NamesOf(p))
    ensures StepMeans(p, ev, now, PoolAdvance(p, ev, now))
  {
    AfterAddKeeps(p, ev);
    JoinedAfter(p, ev);
    AddBounded(p, ev, 0);
    var a := AfterAdd(p, ev);
    var (id, qev) := Target(ev);
    var e := IndexOf(a.queries, id);
    hide AdvanceQuery, Others, PoolInv, NamedIds, NamesOf, AddNewQuery, Joined, NamedStep, PassedOver;
    if !ev.AddQuery? && !ev.Poll? && e < |a.queries| {
      TargetFits(a, ev, e);
      AdvanceNamed(a, id, qev, now);
    } else {
      NobodyNamed(a, now);
      NotNamed(a, id, qev, now);
    }
  }

  lemma NotNamed(p: Pool, id: QueryID, ev: Event, now: Time)
    requires PoolInv(p)
    ensures IndexOf(p.queries, id) == |p.queries| ==>
      forall res :: PassedOver(p, -1, now, res) ==> NamedStep(p, id, ev, now, res)
  {}
}
