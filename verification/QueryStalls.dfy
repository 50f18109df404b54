/** Whether a query comes to an end: exactly when polling it after its deadlines achieves nothing, that it ends
    otherwise, and a run that gets stuck. */
module QueryStalls {
  import opened Keys
  import opened Nearest
  import opened Options
  import opened Times
  import opened QueryModel
  import opened QueryProofs
  import opened QueryRuns
  import opened QueryTimeouts
  import opened QueryProgress

  // ---------- when polling achieves nothing ----------

  /** Every request that is out is past its deadline. */
  ghost predicate AllOverdue(nodes: NodeMap, now: Time) {
    forall k :: k in nodes && nodes[k].Waiting? ==> nodes[k].deadline < now
  }

  /** The first unsettled node is one to contact, at a position the pass gets to. */
  ghost predicate BlockedAt(e: QueryState, order: seq<Key>, j: nat) {
    && j < |order| && Settled(e.nodes, order, j) && SucceededIn(e.nodes, order, j) < e.cfg.numResults
    && order[j] in e.nodes && e.nodes[order[j]] == NotContacted
  }

  /** All slots are taken, and from position i on the first unsettled node waits for contact: the pass stops
      there, and the requests to nodes farther away, which take up the slots, are not looked at. */
  ghost predicate BlockedFrom(e: QueryState, order: seq<Key>, i: nat) {
    e.inFlight >= e.cfg.concurrency && exists j :: i <= j && BlockedAt(e, order, j)
  }

  ghost predicate Blocked(e: QueryState)
    requires KeysFit(e)
  {
    BlockedFrom(e, Ranked(e.nodes.Keys, e.target), 0)
  }

  /** The pass ends early and leaves everything as it is. */
  ghost predicate Stalls(e: QueryState, res: (QueryState, Option<Output>)) {
    res.0.nodes == e.nodes && res.1.Some? && !res.0.finished
  }

  lemma {:induction false} SucceededInGrows(nodes: NodeMap, order: seq<Key>, i: nat, j: nat)
    requires i <= j && Settled(nodes, order, j)
    ensures SucceededIn(nodes, order, i) <= SucceededIn(nodes, order, j)
  {
    if i < j {
      SucceededInGrows(nodes, order, i, j - 1);
    }
  }

  /** With enough successes up to a position the pass never gets beyond it. */
  lemma EnoughBefore(e: QueryState, order: seq<Key>, i: nat)
    requires Settled(e.nodes, order, i) && SucceededIn(e.nodes, order, i) >= e.cfg.numResults
    ensures !BlockedFrom(e, order, i)
  {
    forall j | i <= j && Settled(e.nodes, order, j)
      ensures SucceededIn(e.nodes, order, j) >= e.cfg.numResults
    {
      SucceededInGrows(e.nodes, order, i, j);
    }
  }

  lemma BlockedNext(e: QueryState, order: seq<Key>, i: nat)
    requires i < |order| && order[i] in e.nodes && e.nodes[order[i]] != NotContacted
    ensures BlockedFrom(e, order, i) <==> BlockedFrom(e, order, i + 1)
    ensures e.nodes[order[i]].Waiting? ==> !BlockedFrom(e, order, i)
  {}

  lemma OpenMoves(e: QueryState, order: seq<Key>, i: nat, now: Time, s: nat)
    requires i < |order| && (forall j :: 0 <= j < |order| ==> order[j] in e.nodes) && e.nodes[order[i]] == NotContacted
    requires !e.finished && Settled(e.nodes, order, i) && s == SucceededIn(e.nodes, order, i) < e.cfg.numResults
    ensures Stalls(e, Scan(e, order, i, now, s, false)) <==> BlockedFrom(e, order, i)
  {
    assert BlockedAt(e, order, i);
  }

  /** An overdue request is timed out. */
  lemma OverdueMoves(e: QueryState, order: seq<Key>, i: nat, now: Time, s: nat)
    requires i < |order| && (forall j :: 0 <= j < |order| ==> order[j] in e.nodes)
    requires e.nodes[order[i]].Waiting? && e.nodes[order[i]].deadline < now
    ensures !Stalls(e, Scan(e, order, i, now, s, false))
  {
    var t := TimeOut(e, order[i]);
    ScanTimesOut(t, order, i + 1, now, s, false);
    assert t.nodes[order[i]] == Unresponsive;
    assert Scan(e, order, i, now, s, false) == Scan(t, order, i + 1, now, s, false);
    hide Scan;
  }

  /** From a settled prefix on, the pass over overdue requests changes nothing exactly if it is blocked. */
  lemma {:induction false} ScanStalls(e: QueryState, order: seq<Key>, i: nat, now: Time)
    requires !e.finished && AllOverdue(e.nodes, now) && forall j :: 0 <= j < |order| ==> order[j] in e.nodes
    requires i <= |order| && Settled(e.nodes, order, i) && SucceededIn(e.nodes, order, i) < e.cfg.numResults
    ensures Stalls(e, Scan(e, order, i, now, SucceededIn(e.nodes, order, i), false)) <==> BlockedFrom(e, order, i)
    decreases |order| - i
  {
    hide Stalls, BlockedFrom, Scan;
    if i == |order| {
      ScanToEnd(e, order, now, SucceededIn(e.nodes, order, i));
    } else {
      var k, s, next: nat := order[i], SucceededIn(e.nodes, order, i), i + 1;
      match e.nodes[k]
      case Waiting(_) =>
        BlockedNext(e, order, i);
        OverdueMoves(e, order, i, now, s);
      case NotContacted =>
        OpenMoves(e, order, i, now, s);
      case _ =>
        BlockedNext(e, order, i);
        if e.nodes[k].Succeeded? && s + 1 >= e.cfg.numResults {
          EnoughBefore(e, order, next);
          FinishMoves(e, order, i, now, s);
        } else {
          ScanPasses(e, order, i, now, s);
          ScanStalls(e, order, next, now);
        }
    }
  }

  /** The pass goes on after a settled node, unless it has enough successes. */
  lemma ScanPasses(e: QueryState, order: seq<Key>, i: nat, now: Time, s: nat)
    requires i < |order| && forall j :: 0 <= j < |order| ==> order[j] in e.nodes
    requires e.nodes[order[i]] != NotContacted && !e.nodes[order[i]].Waiting?
    requires e.nodes[order[i]].Succeeded? ==> s + 1 < e.cfg.numResults
    ensures var t := s + if e.nodes[order[i]].Succeeded? then 1 else 0;
      Scan(e, order, i, now, s, false) == Scan(e, order, i + 1, now, t, false)
  {}

  lemma ScanToEnd(e: QueryState, order: seq<Key>, now: Time, s: nat)
    requires forall j :: 0 <= j < |order| ==> order[j] in e.nodes
    ensures !Stalls(e, Scan(e, order, |order|, now, s, false)) && !BlockedFrom(e, order, |order|)
  {}

  lemma FinishMoves(e: QueryState, order: seq<Key>, i: nat, now: Time, s: nat)
    requires i < |order| && (forall j :: 0 <= j < |order| ==> order[j] in e.nodes)
    requires e.nodes[order[i]].Succeeded? && s + 1 >= e.cfg.numResults
    ensures !Stalls(e, Scan(e, order, i, now, s, false))
  {}

  /** A step taken after all deadlines changes nothing about the nodes and leaves the query unfinished
      exactly if the query is blocked. */
  lemma StepStallsIff(q: QueryState, ev: Event, now: Time)
    requires Inv(q) && EventFits(q, ev) && !q.finished && ev != Cancel
    requires AllOverdue(OnEvent(q, ev).nodes, now)
    ensures KeysFit(q) && KeysFit(OnEvent(q, ev))
    ensures var e, r := OnEvent(q, ev), Advance(q, ev, now).0;
      r.nodes == e.nodes && !r.finished <==> Blocked(e)
  {
    OnEventRight(q, ev);
    SomebodyIsAsked(q, ev, now);
    StepTimesOut(q, ev, now);
    InvKeysFit(q);
    var e := OnEvent(q, ev);
    InvKeysFit(e);
    hide Inv, OnEvent, After, Nearer, OnlyOverdue;
    var order := Ranked(e.nodes.Keys, e.target);
    assert forall j :: 0 <= j < |order| ==> order[j] in order;
    ScanStalls(e, order, 0, now);
  }

  // ---------- runs that end, and a run that does not ----------

  lemma {:induction false} FinishedStays(q: QueryState, steps: seq<StepInput>)
    requires Inv(q) && StepsFit(q, steps) && q.finished
    ensures RunQuery(q, steps) == q
    decreases |steps|
  {
    if steps != [] {
      StepsFitAfter(q, q, steps);
      FinishedStays(q, steps[1..]);
    }
  }

  /** Every step is taken after the deadlines of all requests that are out, and never finds the query
      blocked. */
  ghost predicate KeepsMoving(q: QueryState, steps: seq<StepInput>)
    requires Inv(q) && StepsFit(q, steps)
    decreases |steps|
  {
    steps == [] || q.finished ||
    var ev, now := steps[0].ev, steps[0].now;
    AdvancePromises(q, ev, now);
    OnEventRight(q, ev);
    var next := Advance(q, ev, now).0;
    StepsFitAfter(q, next, steps);
    && (ev == Cancel || (AllOverdue(OnEvent(q, ev).nodes, now) && !Blocked(OnEvent(q, ev))))
    && KeepsMoving(next, steps[1..])
  }

  /** Such a step ends the query or makes progress. */
  lemma MovingStep(q: QueryState, ev: Event, now: Time)
    requires Inv(q) && EventFits(q, ev) && !q.finished
    requires KeysFit(OnEvent(q, ev))
    requires ev == Cancel || (AllOverdue(OnEvent(q, ev).nodes, now) && !Blocked(OnEvent(q, ev)))
    ensures KeysFit(q)
    ensures var r := Advance(q, ev, now).0; r.finished || Progress(q.nodes) < Progress(r.nodes)
  {
    AdvancePromises(q, ev, now);
    if ev != Cancel {
      StepStallsIff(q, ev, now);
      OnEventRight(q, ev);
      StepKeepsForward(q, ev, now);
      hide Advance, OnEvent, Inv, Progress, Forward, Promised;
      var e, r := OnEvent(q, ev), Advance(q, ev, now).0;
      ForwardProgress(q.nodes, e.nodes);
      ForwardProgress(e.nodes, r.nodes);
    }
  }

  lemma StepKeepsForward(q: QueryState, ev: Event, now: Time)
    requires Inv(q) && EventFits(q, ev) && !q.finished && ev != Cancel
    ensures KeysFit(q) && Forward(OnEvent(q, ev).nodes, Advance(q, ev, now).0.nodes)
  {
    OnEventRight(q, ev);
    var e := OnEvent(q, ev);
    RankedLists(e);
    ScanRight(e, Ranked(e.nodes.Keys, e.target), 0, now, 0, false);
    hide OnEvent, Scan, Inv, OutputRight, Passed;
  }

  /** One such step, in the run. */
  lemma MovingNext(q: QueryState, steps: seq<StepInput>)
    requires Inv(q) && StepsFit(q, steps) && KeepsMoving(q, steps) && !q.finished && steps != []
    ensures KeysFit(q)
    ensures var next := Advance(q, steps[0].ev, steps[0].now).0;
      && Inv(next) && next.self == q.self && StepsFit(next, steps[1..]) && KeepsMoving(next, steps[1..])
      && RunQuery(q, steps) == RunQuery(next, steps[1..])
      && (next.finished || Progress(q.nodes) < Progress(next.nodes))
  {
    var ev, now := steps[0].ev, steps[0].now;
    AdvancePromises(q, ev, now);
    OnEventRight(q, ev);
    hide Inv, KeysFit;
    MovingStep(q, ev, now);
    StepsFitAfter(q, Advance(q, ev, now).0, steps);
    hide Advance, OnEvent, Progress, Blocked, EventFits;
  }

  /** A query polled often enough after its deadlines, and never blocked, is over. */
  lemma {:induction false} PolledQueryEnds(q: QueryState, steps: seq<StepInput>)
    requires Inv(q) && StepsFit(q, steps) && KeepsMoving(q, steps)
    ensures RunQuery(q, steps).finished || Progress(q.nodes) + |steps| <= 4 * (Pow2(|q.self|) - 1)
    decreases |steps|
  {
    ProgressBounded(q);
    if q.finished {
      FinishedStays(q, steps);
    } else if steps != [] {
      MovingNext(q, steps);
      var next := Advance(q, steps[0].ev, steps[0].now).0;
      hide Advance, Progress, Inv, StepsFit, KeepsMoving, RunQuery, KeysFit;
      PolledQueryEnds(next, steps[1..]);
      if next.finished {
        FinishedStays(next, steps[1..]);
      }
    }
  }

  lemma {:induction false} ScanBlocked(e: QueryState, order: seq<Key>, i: nat, j: nat, now: Time)
    requires i <= j && BlockedAt(e, order, j) && e.inFlight >= e.cfg.concurrency
    requires forall m :: 0 <= m < |order| ==> order[m] in e.nodes
    ensures Scan(e, order, i, now, SucceededIn(e.nodes, order, i), false) == (e, Some(WaitingAtCapacity))
    decreases j - i
  {
    if i < j {
      SucceededInGrows(e.nodes, order, i + 1, j);
      ScanPasses(e, order, i, now, SucceededIn(e.nodes, order, i));
      hide Scan;
      ScanBlocked(e, order, i + 1, j, now);
    }
  }

  /** A blocked query is not changed by being polled, whatever the time. */
  lemma PollBlocked(q: QueryState, now: Time)
    requires Inv(q) && !q.finished && KeysFit(q) && Blocked(q)
    ensures Advance(q, NoEvent, now) == (q, WaitingAtCapacity)
  {
    var order := Ranked(q.nodes.Keys, q.target);
    assert forall m :: 0 <= m < |order| ==> order[m] in order;
    var j :| BlockedAt(q, order, j);
    ScanBlocked(q, order, 0, j, now);
  }

  /** Nor does polling it again and again: it waits for an answer that may never come. */
  lemma {:induction false} BlockedForever(q: QueryState, steps: seq<StepInput>)
    requires Inv(q) && StepsFit(q, steps) && !q.finished && KeysFit(q) && Blocked(q)
    requires forall i :: 0 <= i < |steps| ==> steps[i].ev == NoEvent
    ensures RunQuery(q, steps) == q
    decreases |steps|
  {
    if steps != [] {
      PollBlocked(q, steps[0].now);
      StepsFitAfter(q, q, steps);
      BlockedForever(q, steps[1..]);
    }
  }

  const SELF: Key := [false, false]
  const NEAR: Key := [false, true]
  const MIDDLE: Key := [true, false]
  const FAR: Key := [true, true]

  /** A query with one slot, at its own key, that starts out knowing two nodes. */
  function TwoKnown(): QueryState {
    NewQuery(SELF, SELF, [MIDDLE, FAR], Config(1, 20, 10))
  }

  /** The nearer one is asked, times out, and answers late, naming an even nearer node, while the farther
      one is being asked. */
  function LateAnswer(): seq<StepInput> {
    [StepInput(NoEvent, 0), StepInput(NoEvent, 11), StepInput(Response(MIDDLE, [NEAR]), 12)]
  }

  lemma Orders()
    ensures SameLength({MIDDLE, FAR}, SELF) && Ranked({MIDDLE, FAR}, SELF) == [MIDDLE, FAR]
    ensures SameLength({NEAR, MIDDLE, FAR}, SELF) && Ranked({NEAR, MIDDLE, FAR}, SELF) == [NEAR, MIDDLE, FAR]
  {
    RankingUnique([MIDDLE, FAR], Ranked({MIDDLE, FAR}, SELF), {MIDDLE, FAR}, SELF);
    RankingUnique([NEAR, MIDDLE, FAR], Ranked({NEAR, MIDDLE, FAR}, SELF), {NEAR, MIDDLE, FAR}, SELF);
  }

  /** The query after each of the three steps: the nodes, the keys messaged, and the counters. */
  function Snapshot(nodes: NodeMap, messaged: seq<Key>, success: int, failure: int, late: int): QueryState {
    QueryState(SELF, SELF, Config(1, 20, 10), nodes, 1, Stats(Some(0), None, |messaged|, success, failure),
               false, messaged, late)
  }

  function FirstAsked(): QueryState {
    Snapshot(map[MIDDLE := Waiting(10), FAR := NotContacted], [MIDDLE], 0, 0, 0)
  }

  function SecondAsked(): QueryState {
    Snapshot(map[MIDDLE := Unresponsive, FAR := Waiting(21)], [MIDDLE, FAR], 0, 1, 0)
  }

  function Stuck(): QueryState {
    Snapshot(map[NEAR := NotContacted, MIDDLE := Succeeded, FAR := Waiting(21)], [MIDDLE, FAR], 1, 1, 1)
  }

  /** A step is its event followed by the pass in order of distance. */
  lemma StepIs(q: QueryState, ev: Event, e: QueryState, now: Time, order: seq<Key>, r: QueryState, out: Output)
    requires KeysFit(q) && EventFits(q, ev) && !q.finished && ev != Cancel && e == OnEvent(q, ev)
    requires SameLength(e.nodes.Keys, e.target) && order == Ranked(e.nodes.Keys, e.target)
    requires (forall j :: 0 <= j < |order| ==> order[j] in e.nodes)
    requires Scan(e, order, 0, now, 0, false) == (r, Some(out))
    ensures Advance(q, ev, now) == (r, out)
  {
    hide OnEvent, Scan, EventFits, KeysFit, Nearer;
  }

  /** A list of nodes is added from its front. */
  lemma AddNodesTwo(a: Key, b: Key, self: Key)
    requires a != self && b != self
    ensures AddNodes(map[], self, [a]) == map[a := NotContacted]
    ensures AddNodes(map[], self, [a, b]) == map[a := NotContacted, b := NotContacted]
  {
    assert [a, b][..1] == [a] && [a][..0] == [];
  }

  lemma TwoKnownIs()
    ensures TwoKnown() == QueryState(SELF, SELF, Config(1, 20, 10), map[MIDDLE := NotContacted, FAR := NotContacted], 0,
                                     Stats(None, None, 0, 0, 0), false, [], 0)
  {
    AddNodesTwo(MIDDLE, FAR, SELF);
    hide AddNodes;
  }

  lemma FirstPass()
    ensures forall k :: k in [MIDDLE, FAR] ==> k in TwoKnown().nodes
    ensures Scan(TwoKnown(), [MIDDLE, FAR], 0, 0, 0, false) == (FirstAsked(), Some(WaitingMessage(MIDDLE)))
  {
    TwoKnownIs();
    hide TwoKnown;
    var q := TwoKnown();
    assert Launch(q, MIDDLE, 0) == FirstAsked();
    assert Visit(q, MIDDLE, 0, 0, false) == (FirstAsked(), Some(WaitingMessage(MIDDLE)), 0, false);
  }

  lemma FirstStep()
    ensures KeysFit(TwoKnown()) && EventFits(TwoKnown(), NoEvent)
    ensures Advance(TwoKnown(), NoEvent, 0) == (FirstAsked(), WaitingMessage(MIDDLE))
  {
    Orders();
    FirstPass();
    TwoKnownIs();
    hide TwoKnown, Scan, Ranked;
    assert TwoKnown().nodes.Keys == {MIDDLE, FAR};
    StepIs(TwoKnown(), NoEvent, TwoKnown(), 0, [MIDDLE, FAR], FirstAsked(), WaitingMessage(MIDDLE));
  }

  lemma SecondPass()
    ensures forall k :: k in [MIDDLE, FAR] ==> k in FirstAsked().nodes
    ensures Scan(FirstAsked(), [MIDDLE, FAR], 0, 11, 0, false) == (SecondAsked(), Some(WaitingMessage(FAR)))
  {
    var q := FirstAsked();
    var t := TimeOut(q, MIDDLE);
    assert Launch(t, FAR, 11) == SecondAsked();
    assert Scan(q, [MIDDLE, FAR], 0, 11, 0, false) == Scan(t, [MIDDLE, FAR], 1, 11, 0, false);
  }

  lemma SecondStep()
    ensures KeysFit(FirstAsked()) && EventFits(FirstAsked(), NoEvent)
    ensures Advance(FirstAsked(), NoEvent, 11) == (SecondAsked(), WaitingMessage(FAR))
  {
    Orders();
    SecondPass();
    assert FirstAsked().nodes.Keys == {MIDDLE, FAR};
    hide Scan, Ranked;
    StepIs(FirstAsked(), NoEvent, FirstAsked(), 11, [MIDDLE, FAR], SecondAsked(), WaitingMessage(FAR));
  }

  lemma LateEvent()
    ensures OnEvent(SecondAsked(), Response(MIDDLE, [NEAR])) == Stuck()
  {
    assert [NEAR][..0] == [];
    assert AddNodes(SecondAsked().nodes, SELF, [NEAR]) == SecondAsked().nodes[NEAR := NotContacted];
  }

  lemma ThirdStep()
    ensures KeysFit(SecondAsked()) && EventFits(SecondAsked(), Response(MIDDLE, [NEAR]))
    ensures Advance(SecondAsked(), Response(MIDDLE, [NEAR]), 12) == (Stuck(), WaitingAtCapacity)
    ensures KeysFit(Stuck()) && Blocked(Stuck())
  {
    Orders();
    LateEvent();
    assert SecondAsked().nodes.Keys == {MIDDLE, FAR} && Stuck().nodes.Keys == {NEAR, MIDDLE, FAR};
    assert BlockedAt(Stuck(), [NEAR, MIDDLE, FAR], 0);
    hide Ranked, AddNodes, OnEvent;
    StepIs(SecondAsked(), Response(MIDDLE, [NEAR]), Stuck(), 12, [NEAR, MIDDLE, FAR], Stuck(), WaitingAtCapacity);
  }

  /** The first step of a run, and the rest of it. */
  lemma RunFirst(q: QueryState, steps: seq<StepInput>, next: QueryState, rest: seq<StepInput>)
    requires Inv(q) && StepsFit(q, steps) && steps != [] && rest == steps[1..]
    requires KeysFit(q) && Advance(q, steps[0].ev, steps[0].now).0 == next
    ensures Inv(next) && StepsFit(next, rest) && RunQuery(q, steps) == RunQuery(next, rest)
  {
    AdvancePromises(q, steps[0].ev, steps[0].now);
    StepsFitAfter(q, next, steps);
    hide Advance, Inv, KeysFit, EventFits;
  }

  lemma LateAnswerFits()
    ensures Inv(TwoKnown()) && StepsFit(TwoKnown(), LateAnswer())
  {
    NewQueryInv(SELF, SELF, [MIDDLE, FAR], Config(1, 20, 10));
  }

  lemma RunThree(q0: QueryState, q1: QueryState, q2: QueryState, q3: QueryState, a: StepInput, b: StepInput,
                 c: StepInput)
    requires Inv(q0) && StepsFit(q0, [a, b, c]) && KeysFit(q0) && KeysFit(q1) && KeysFit(q2)
    requires EventFits(q0, a.ev) && Advance(q0, a.ev, a.now).0 == q1
    requires EventFits(q1, b.ev) && Advance(q1, b.ev, b.now).0 == q2
    requires EventFits(q2, c.ev) && Advance(q2, c.ev, c.now).0 == q3
    ensures RunQuery(q0, [a, b, c]) == q3 && Inv(q3)
  {
    hide *;
    assert [a, b, c][1..] == [b, c] && [b, c][1..] == [c];
    RunFirst(q0, [a, b, c], q1, [b, c]);
    RunFirst(q1, [b, c], q2, [c]);
    RunFirst(q2, [c], q3, []);
    RunNothing(q3);
  }

  lemma RunNothing(q: QueryState)
    requires Inv(q)
    ensures StepsFit(q, []) && RunQuery(q, []) == q
  {}

  lemma LateAnswerRuns()
    ensures Inv(TwoKnown()) && StepsFit(TwoKnown(), LateAnswer())
    ensures RunQuery(TwoKnown(), LateAnswer()) == Stuck() && Inv(Stuck())
  {
    LateAnswerFits();
    FirstStep();
    SecondStep();
    ThirdStep();
    hide Advance, Inv, KeysFit, TwoKnown, FirstAsked, SecondAsked, Stuck, EventFits, RunQuery;
    RunThree(TwoKnown(), FirstAsked(), SecondAsked(), Stuck(),
             StepInput(NoEvent, 0), StepInput(NoEvent, 11), StepInput(Response(MIDDLE, [NEAR]), 12));
  }

  /** The run takes q to a state r which is not over, has a request out, and is never changed by the polls. */
  ghost predicate EndsStuck(q: QueryState, steps: seq<StepInput>, r: QueryState, polls: seq<StepInput>) {
    && Inv(q) && StepsFit(q, steps) && RunQuery(q, steps) == r
    && !r.finished && (exists k :: k in r.nodes && r.nodes[k].Waiting?)
    && Inv(r) && StepsFit(r, polls) && RunQuery(r, polls) == r
  }

  lemma StuckFrom(q: QueryState, steps: seq<StepInput>, r: QueryState, polls: seq<StepInput>, k: Key)
    requires Inv(q) && StepsFit(q, steps) && RunQuery(q, steps) == r
    requires !r.finished && KeysFit(r) && Blocked(r) && k in r.nodes && r.nodes[k].Waiting?
    requires forall i :: 0 <= i < |polls| ==> polls[i].ev == NoEvent
    ensures EndsStuck(q, steps, r, polls)
  {
    hide Inv, KeysFit, Blocked, RunQuery;
    assert StepsFit(r, polls);
    BlockedForever(r, polls);
  }

  /** A query reaches a state in which its one request is never given up, however often and however late it is
      polled. */
  lemma QueryGetsStuck(polls: seq<StepInput>)
    requires forall i :: 0 <= i < |polls| ==> polls[i].ev == NoEvent
    ensures EndsStuck(TwoKnown(), LateAnswer(), Stuck(), polls)
  {
    LateAnswerRuns();
    ThirdStep();
    assert FAR in Stuck().nodes && Stuck().nodes[FAR].Waiting? && !Stuck().finished;
    hide EndsStuck, Inv, Blocked, Advance, TwoKnown, Stuck;
    StuckFrom(TwoKnown(), LateAnswer(), Stuck(), polls, FAR);
  }
}
