/** Every query leaves the pool: polls that come after the pool's timeout empty it, whatever the queries wait
    for, also those that polling does not change. */
module PoolTimeouts {
  import opened Keys
  import opened Nearest
  import opened Times
  import opened QueryModel
  import opened QueryProofs
  import opened QueryRuns
  import opened QueryProgress
  import opened PoolModel
  import opened PoolProofs
  import opened PoolBound
  import PoolSteps

  // ---------- one query ----------

  lemma {:induction false} ScanStart(q: QueryState, order: seq<Key>, i: nat, now: Time, successes: nat,
                                     progressing: bool)
    requires i <= |order| && forall j :: 0 <= j < |order| ==> order[j] in q.nodes
    ensures var res := Scan(q, order, i, now, successes, progressing);
      res.1.None? || !res.1.value.WaitingMessage? ==> res.0.stats.start == q.stats.start
    decreases |order| - i
  {
    if i < |order| {
      var v := Visit(q, order[i], now, successes, progressing);
      if v.1.None? {
        ScanStart(v.0, order, i + 1, now, v.2, v.3);
      }
    }
  }

  /** Only the first message sets the time a query counts from. */
  lemma StepStart(q: QueryState, now: Time)
    requires KeysFit(q)
    ensures var (r, out) := Advance(q, NoEvent, now); !out.WaitingMessage? ==> r.stats.start == q.stats.start
  {
    var order := Ranked(q.nodes.Keys, q.target);
    assert forall j :: 0 <= j < |order| ==> order[j] in order;
    ScanStart(q, order, 0, now, 0, false);
    hide Scan;
  }

  /** How many changes a query may still go through, and its removal. */
  ghost function Left(q: QueryState): int {
    1 + 4 * (Pow2(|q.self|) - 1) - Progress(q.nodes)
  }

  lemma LeftPositive(q: QueryState)
    requires Inv(q)
    ensures 1 <= Left(q) <= 1 + 4 * (Pow2(|q.self|) - 1)
  {
    ProgressBounded(q);
    hide Progress;
  }

  /** A message is a change. */
  lemma MessageUsesUp(q: QueryState, now: Time)
    requires Inv(q)
    ensures KeysFit(q)
    ensures var (r, out) := Advance(q, NoEvent, now); out.WaitingMessage? ==> Left(r) < Left(q)
  {
    AdvancePromises(q, NoEvent, now);
    var (r, out) := Advance(q, NoEvent, now);
    if out.WaitingMessage? {
      assert forall k :: k in q.nodes && WasMessaged(q.nodes[k]) ==> k in q.messaged;
      assert q.nodes != r.nodes;
      ForwardProgress(q.nodes, r.nodes);
    }
    hide Progress, Advance, Inv;
  }

  // ---------- the pool ----------

  ghost function AllLeft(qs: seq<Entry>): int {
    if qs == [] then 0 else Left(qs[0].q) + AllLeft(qs[1..])
  }

  ghost predicate AllTimedOut(p: Pool, now: Time) {
    forall i :: 0 <= i < |p.queries| && p.queries[i].q.stats.start.Some? ==>
      now > p.queries[i].q.stats.start.value + p.cfg.timeout
  }

  /** A late poll makes the first query send a message, or takes it out. */
  lemma LateFirst(p: Pool, now: Time)
    requires PoolInv(p) && p.queries != []
    requires p.queries[0].q.stats.start.Some? ==> now > p.queries[0].q.stats.start.value + p.cfg.timeout
    ensures KeysFit(p.queries[0].q) && EventFits(p.queries[0].q, NoEvent)
    ensures var (r, out) := AdvanceQuery(p, 0, NoEvent, now); out.Some? && AllLeft(r.queries) < AllLeft(p.queries)
  {
    var q := p.queries[0].q;
    assert QueryOk(p, q);
    InvKeysFit(q);
    LeftPositive(q);
    MessageUsesUp(q, now);
    StepStart(q, now);
    PoolSteps.QueryActs(p, 0, NoEvent, now);
    var r := Advance(q, NoEvent, now).0;
    hide Advance, AdvanceQuery, Inv, KeysFit, PoolInv, Left;
    assert p.queries[..0] + p.queries[0 + 1..] == p.queries[1..];
    assert p.queries[0 := Entry(p.queries[0].id, r)][1..] == p.queries[1..];
  }

  lemma LatePoll(p: Pool, now: Time)
    requires PoolInv(p) && NamedIds(NamesOf(p)) && AllTimedOut(p, now)
    ensures var r := PoolAdvance(p, Poll, now).0;
      if p.queries == [] then r == p else AllLeft(r.queries) < AllLeft(p.queries)
  {
    if p.queries != [] {
      assert NamesOf(p)[0].0 == p.queries[0].id;
      LateFirst(p, now);
      OthersUnfold(p, 0, "", 0, now);
      hide AdvanceQuery, Others, PoolInv, NamedIds, AllTimedOut, AllLeft;
    }
  }

  lemma {:induction false} AllLeftBounds(qs: seq<Entry>, n: nat)
    requires forall i :: 0 <= i < |qs| ==> Inv(qs[i].q) && |qs[i].q.self| == n
    ensures |qs| <= AllLeft(qs) <= |qs| * (1 + 4 * (Pow2(n) - 1))
  {
    hide Inv, Left, Pow2;
    if qs != [] {
      LeftPositive(qs[0].q);
      assert forall i :: 0 <= i < |qs| - 1 ==> qs[1..][i] == qs[i + 1];
      AllLeftBounds(qs[1..], n);
      OneMore(|qs| - 1, 1 + 4 * (Pow2(n) - 1));
    }
  }

  lemma PoolLeft(p: Pool)
    requires PoolInv(p)
    ensures |p.queries| <= AllLeft(p.queries) <= |p.queries| * (1 + 4 * (Pow2(|p.self|) - 1))
  {
    forall i | 0 <= i < |p.queries|
      ensures Inv(p.queries[i].q) && |p.queries[i].q.self| == |p.self|
    {
      assert QueryOk(p, p.queries[i].q);
    }
    hide Inv, PoolInv;
    AllLeftBounds(p.queries, |p.self|);
  }

  /** Polls only, each after the pool's timeout for all queries that have started by then. */
  ghost predicate LatePolls(p: Pool, steps: seq<PoolInput>)
    requires PoolInv(p) && NamedIds(NamesOf(p)) && RunFits(p, steps)
    decreases |steps|
  {
    steps == [] || (
      RunFitsNext(p, steps);
      && steps[0].ev == Poll && AllTimedOut(p, steps[0].now)
      && LatePolls(PoolAdvance(p, steps[0].ev, steps[0].now).0, steps[1..]))
  }

  /** As many late polls as there are changes left empty the pool. */
  lemma {:induction false} LatePollsEmpty(p: Pool, steps: seq<PoolInput>)
    requires PoolInv(p) && NamedIds(NamesOf(p)) && RunFits(p, steps) && LatePolls(p, steps)
    requires |steps| >= AllLeft(p.queries)
    ensures PoolRun(p, steps).queries == []
    decreases |steps|
  {
    PoolLeft(p);
    if steps != [] {
      RunFitsNext(p, steps);
      LatePoll(p, steps[0].now);
      hide PoolAdvance, PoolInv, NamedIds, RunFits, AllTimedOut, NamesOf;
      var next := PoolAdvance(p, steps[0].ev, steps[0].now).0;
      if p.queries == [] {
        NothingComesBack(next, steps[1..]);
      } else {
        LatePollsEmpty(next, steps[1..]);
      }
    }
  }

  lemma {:induction false} NothingComesBack(p: Pool, steps: seq<PoolInput>)
    requires PoolInv(p) && NamedIds(NamesOf(p)) && RunFits(p, steps) && LatePolls(p, steps) && p.queries == []
    ensures PoolRun(p, steps).queries == []
    decreases |steps|
  {
    if steps != [] {
      RunFitsNext(p, steps);
      LatePoll(p, steps[0].now);
      hide PoolAdvance, PoolInv, NamedIds, RunFits, AllTimedOut, NamesOf;
      NothingComesBack(PoolAdvance(p, steps[0].ev, steps[0].now).0, steps[1..]);
    }
  }

  /** From any state, whatever the queries wait for: late polls, one for each query and four for each other key and
      query, leave an empty pool. */
  lemma PolledPoolEmpties(p: Pool, steps: seq<PoolInput>)
    requires PoolInv(p) && NamedIds(NamesOf(p)) && RunFits(p, steps) && LatePolls(p, steps)
    requires |steps| >= |p.queries| * (1 + 4 * (Pow2(|p.self|) - 1))
    ensures PoolRun(p, steps).queries == []
  {
    PoolLeft(p);
    hide PoolInv, Pow2, LatePolls, PoolRun;
    LatePollsEmpty(p, steps);
  }
}
