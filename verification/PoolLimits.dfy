/** Where the pool's limit on concurrent queries does not hold: runs from an empty pool that exceed it. */
module PoolLimits {
  import opened Keys
  import opened Nearest
  import opened Options
  import opened Times
  import opened QueryModel
  import opened QueryProofs
  import opened PoolModel
  import opened PoolProofs
  import opened PoolBound

  /** The run's setting: every query starts out knowing one node, and nothing but events happens. */
  datatype Setting = Setting(self: Key, node: Key, cfg: PoolConfig)

  predicate GoodSetting(s: Setting) {
    GoodPoolConfig(s.cfg) && |s.node| == |s.self| && s.node != s.self
  }

  /** A query that has sent its request to the node and waits for the answer. */
  function Asking(s: Setting): QueryState {
    QueryState(s.self, s.self, s.cfg.queryCfg, map[s.node := Waiting(s.cfg.queryCfg.requestTimeout)], 1,
               Stats(Some(0), None, 1, 0, 0), false, [s.node], 0)
  }

  /** A query that has not started. */
  function Fresh(s: Setting): QueryState {
    NewQuery(s.self, s.self, [s.node], s.cfg.queryCfg)
  }

  lemma FreshIs(s: Setting)
    requires GoodSetting(s)
    ensures Fresh(s) ==
      QueryState(s.self, s.self, s.cfg.queryCfg, map[s.node := NotContacted], 0,
                 Stats(None, None, 0, 0, 0), false, [], 0)
  {
    assert [s.node][..0] == [];
    assert AddNodes(map[], s.self, [s.node]) == map[s.node := NotContacted];
  }

  lemma OneNodeOrder(s: Setting, st: NodeState)
    requires GoodSetting(s)
    ensures SameLength((map[s.node := st]).Keys, s.self) && Ranked((map[s.node := st]).Keys, s.self) == [s.node]
  {
    assert (map[s.node := st]).Keys == {s.node};
    RankingUnique([s.node], Ranked({s.node}, s.self), {s.node}, s.self);
  }

  lemma AskingInv(s: Setting)
    requires GoodSetting(s)
    ensures Inv(Asking(s)) && Inv(Fresh(s))
  {
    FreshIs(s);
    NewQueryInv(s.self, s.self, [s.node], s.cfg.queryCfg);
    var q := Asking(s);
    assert WaitingSet(q.nodes) == {s.node};
    assert SucceededSet(q.nodes) == {};
  }

  /** Events that tell a query nothing: none, or a failure of a node it does not know. */
  predicate TellsNothing(s: Setting, ev: Event) {
    ev == NoEvent || ev == Failure(s.self)
  }

  /** While it waits it stays as it is, and asks for nothing. */
  lemma AskingStays(s: Setting, ev: Event)
    requires GoodSetting(s) && TellsNothing(s, ev)
    ensures KeysFit(Asking(s)) && EventFits(Asking(s), ev)
    ensures Advance(Asking(s), ev, 0).0 == Asking(s)
    ensures Advance(Asking(s), ev, 0).1 == WaitingAtCapacity || Advance(Asking(s), ev, 0).1 == WaitingWithCapacity
  {
    var q := Asking(s);
    OneNodeOrder(s, q.nodes[s.node]);
    assert OnEvent(q, ev) == q;
    assert Scan(q, [s.node], 1, 0, 0, true) == (q, None);
  }

  /** Not started yet, it messages its node. */
  lemma FreshMessages(s: Setting, ev: Event)
    requires GoodSetting(s) && TellsNothing(s, ev)
    ensures KeysFit(Fresh(s)) && EventFits(Fresh(s), ev)
    ensures Advance(Fresh(s), ev, 0) == (Asking(s), WaitingMessage(s.node))
  {
    var q := Fresh(s);
    FreshIs(s);
    OneNodeOrder(s, NotContacted);
    assert OnEvent(q, ev) == q;
    assert Launch(q, s.node, 0) == Asking(s);
  }

  // ---------- pools of such queries ----------

  function Name(i: nat): (id: QueryID)
    ensures |id| == i + 1
  {
    seq(i + 1, _ => 'q')
  }

  /** k queries, all waiting for answers. */
  function AllAsking(s: Setting, k: nat): (p: Pool)
    ensures |p.queries| == k && p.self == s.self && p.cfg == s.cfg
    ensures forall i :: 0 <= i < k ==> p.queries[i] == Entry(Name(i), Asking(s))
  {
    Pool(s.self, s.cfg, seq(k, i requires 0 <= i < k => Entry(Name(i), Asking(s))))
  }

  /** k queries that wait for answers, and one that has not started. */
  function LastFresh(s: Setting, k: nat): (p: Pool)
    ensures |p.queries| == k + 1 && p.self == s.self && p.cfg == s.cfg
    ensures forall i :: 0 <= i < k ==> p.queries[i] == Entry(Name(i), Asking(s))
    ensures p.queries[k] == Entry(Name(k), Fresh(s))
  {
    Pool(s.self, s.cfg, AllAsking(s, k).queries + [Entry(Name(k), Fresh(s))])
  }

  lemma PoolsOk(s: Setting, k: nat)
    requires GoodSetting(s)
    ensures PoolInv(AllAsking(s, k)) && NamedIds(NamesOf(AllAsking(s, k)))
    ensures PoolInv(LastFresh(s, k)) && NamedIds(NamesOf(LastFresh(s, k)))
  {
    AskingInv(s);
    hide Inv, Asking, Fresh, Name;
    assert Asking(s).self == s.self && Asking(s).cfg == s.cfg.queryCfg && !Asking(s).finished by { AskingIs(s); }
    assert Fresh(s).self == s.self && Fresh(s).cfg == s.cfg.queryCfg && !Fresh(s).finished by { AskingIs(s); }
  }

  lemma AskingIs(s: Setting)
    ensures Asking(s).self == s.self && Asking(s).cfg == s.cfg.queryCfg && !Asking(s).finished
    ensures Fresh(s).self == s.self && Fresh(s).cfg == s.cfg.queryCfg && !Fresh(s).finished
    ensures Asking(s).messaged == [s.node] && Fresh(s).messaged == []
    ensures Asking(s).stats.start == Some(0)
  {}

  /** Advancing a query that waits changes nothing and lets the pass go on. */
  lemma AdvanceAsking(s: Setting, p: Pool, i: nat, ev: Event)
    requires GoodSetting(s) && TellsNothing(s, ev) && p.cfg == s.cfg
    requires i < |p.queries| && p.queries[i].q == Asking(s)
    ensures KeysFit(p.queries[i].q) && EventFits(p.queries[i].q, ev)
    ensures AdvanceQuery(p, i, ev, 0) == (p, None)
  {
    AskingStays(s, ev);
    AskingIs(s);
    hide Advance, Asking, KeysFit, EventFits, GoodSetting;
    OutcomeStays(p, i, Advance(Asking(s), ev, 0).1, 0);
  }

  /** A query that waits, unchanged and in time, leaves the pool as it is. */
  lemma OutcomeStays(p: Pool, i: nat, out: Output, now: Time)
    requires i < |p.queries| && (out == WaitingAtCapacity || out == WaitingWithCapacity)
    requires !TimedOut(p.queries[i].q, now, p.cfg.timeout)
    ensures Outcome(p, i, p.queries[i].q, out, now) == (p, None)
  {
    assert p.queries[i := Entry(p.queries[i].id, p.queries[i].q)] == p.queries;
  }

  /** Advancing the one that has not started lets it send its message. */
  lemma AdvanceFresh(s: Setting, k: nat, ev: Event)
    requires GoodSetting(s) && TellsNothing(s, ev)
    ensures KeysFit(LastFresh(s, k).queries[k].q) && EventFits(LastFresh(s, k).queries[k].q, ev)
    ensures AdvanceQuery(LastFresh(s, k), k, ev, 0) == (AllAsking(s, k + 1), Some(QueryMessage(Name(k), s.node)))
  {
    FreshMessages(s, ev);
    hide Advance, Asking, Fresh, Name;
    var p := LastFresh(s, k);
    assert p.queries[k := Entry(Name(k), Asking(s))] == AllAsking(s, k + 1).queries;
  }

  /** From position j on, with the j queries before it waiting, the pass stops at the limit or goes on to the
      query that has not started. */
  ghost predicate WalksRight(s: Setting, k: nat, j: nat)
    requires j <= k
  {
    var p := LastFresh(s, k);
    PoolInv(p) && Others(p, j, "", j, 0) ==
      if k < s.cfg.concurrency then (AllAsking(s, k + 1), QueryMessage(Name(k), s.node)) else (p, AtCapacity)
  }

  /** A query that waits takes one place, and the pass goes on unless that was the last one. */
  lemma OthersPast(s: Setting, k: nat, j: nat)
    requires GoodSetting(s) && j < k <= s.cfg.concurrency
    requires j + 1 < s.cfg.concurrency ==> WalksRight(s, k, j + 1)
    ensures WalksRight(s, k, j)
  {
    PoolsOk(s, k);
    AdvanceAsking(s, LastFresh(s, k), j, NoEvent);
    OthersUnfold(LastFresh(s, k), j, "", j, 0);
    hide Others, AdvanceQuery, PoolInv, AllAsking, LastFresh, Asking, Fresh, GoodSetting, NamedIds, NamesOf;
  }

  lemma OthersLast(s: Setting, k: nat)
    requires GoodSetting(s) && k < s.cfg.concurrency
    ensures WalksRight(s, k, k)
  {
    PoolsOk(s, k);
    AdvanceFresh(s, k, NoEvent);
    OthersUnfold(LastFresh(s, k), k, "", k, 0);
    hide Others, AdvanceQuery, PoolInv, AllAsking, LastFresh, Asking, Fresh, GoodSetting, NamedIds, NamesOf;
  }

  lemma {:induction false} OthersWalk(s: Setting, k: nat, j: nat)
    requires GoodSetting(s) && j <= k <= s.cfg.concurrency && j < s.cfg.concurrency
    ensures WalksRight(s, k, j)
    decreases k - j
  {
    hide *;
    if j == k {
      OthersLast(s, k);
    } else {
      if j + 1 < s.cfg.concurrency {
        OthersWalk(s, k, j + 1);
      }
      OthersPast(s, k, j);
    }
  }

  function Add(s: Setting, k: nat): PoolEvent {
    AddQuery(Name(k), s.self, [s.node])
  }

  /** One more query is added: it starts if there is room. */
  lemma AddStep(s: Setting, k: nat)
    requires GoodSetting(s) && k <= s.cfg.concurrency
    ensures PoolInv(AllAsking(s, k)) && EventOk(AllAsking(s, k), Add(s, k))
    ensures PoolAdvance(AllAsking(s, k), Add(s, k), 0).0 ==
      if k < s.cfg.concurrency then AllAsking(s, k + 1) else LastFresh(s, k)
  {
    PoolsOk(s, k);
    OthersWalk(s, k, 0);
    var p := AllAsking(s, k);
    assert IndexOf(p.queries, Name(k)) == k;
    assert AfterAdd(p, Add(s, k)) == LastFresh(s, k);
    hide Others, PoolInv, AllAsking, LastFresh, Name, AddNewQuery;
  }

  /** An event for the query that has not started lets it send its message, whatever the limit. */
  lemma NamedStep(s: Setting, k: nat)
    requires GoodSetting(s)
    ensures PoolInv(LastFresh(s, k)) && EventOk(LastFresh(s, k), MessageFailure(Name(k), s.self))
    ensures PoolAdvance(LastFresh(s, k), MessageFailure(Name(k), s.self), 0).0 == AllAsking(s, k + 1)
  {
    PoolsOk(s, k);
    AdvanceFresh(s, k, Failure(s.self));
    var p := LastFresh(s, k);
    assert IndexOf(p.queries, Name(k)) == k;
    hide Others, PoolInv, AllAsking, LastFresh, Name, AdvanceQuery;
  }

  /** With a limit of 1, an event for the query that waits lets the other one send its message. */
  lemma SecondStarts(s: Setting)
    requires GoodSetting(s) && s.cfg.concurrency == 1
    ensures PoolInv(LastFresh(s, 1)) && EventOk(LastFresh(s, 1), MessageFailure(Name(0), s.self))
    ensures PoolAdvance(LastFresh(s, 1), MessageFailure(Name(0), s.self), 0).0 == AllAsking(s, 2)
  {
    PoolsOk(s, 1);
    var p, id := LastFresh(s, 1), Name(0);
    AdvanceAsking(s, p, 0, Failure(s.self));
    AdvanceFresh(s, 1, NoEvent);
    assert IndexOf(p.queries, id) == 0 && Name(1) != id;
    OthersUnfold(p, 0, id, 1, 0);
    OthersUnfold(p, 1, id, 1, 0);
    hide Others, PoolInv, AllAsking, LastFresh, Name, AdvanceQuery;
  }

  // ---------- runs from an empty pool ----------

  /** The queries from k on are added one after the other, up to one more than the limit, and then comes the
      event last. */
  function AddsThen(s: Setting, k: nat, last: PoolEvent): (r: seq<PoolInput>)
    requires k <= s.cfg.concurrency + 1
    ensures |r| == s.cfg.concurrency + 2 - k
    decreases s.cfg.concurrency + 1 - k
  {
    if k > s.cfg.concurrency then [PoolInput(last, 0)]
    else [PoolInput(Add(s, k), 0)] + AddsThen(s, k + 1, last)
  }

  /** The event last, at the full pool, starts the query beyond the limit. */
  ghost predicate StartsLast(s: Setting, last: PoolEvent)
    requires GoodSetting(s)
  {
    PoolsOk(s, s.cfg.concurrency);
    var p := LastFresh(s, s.cfg.concurrency);
    EventOk(p, last) && PoolAdvance(p, last, 0).0 == AllAsking(s, s.cfg.concurrency + 1)
  }

  ghost predicate Goes(p: Pool, steps: seq<PoolInput>, r: Pool, allowed: bool) {
    && PoolInv(p) && NamedIds(NamesOf(p)) && RunFits(p, steps) && PoolRun(p, steps) == r
    && (allowed ==> RunAllowed(p, steps))
  }

  lemma SameEvents(p: Pool, next: Pool, ev: PoolEvent)
    requires p.self == next.self
    ensures EventOk(p, ev) <==> EventOk(next, ev)
  {}

  lemma FitsFirst(p: Pool, next: Pool, first: PoolInput, rest: seq<PoolInput>)
    requires EventOk(p, first.ev) && RunFits(next, rest) && p.self == next.self
    ensures RunFits(p, [first] + rest)
  {
    hide EventOk;
    forall i | 0 <= i < |rest|
      ensures EventOk(p, rest[i].ev)
    {
      SameEvents(p, next, rest[i].ev);
    }
  }

  lemma GoesFirst(p: Pool, ev: PoolEvent, next: Pool, rest: seq<PoolInput>, r: Pool, allowed: bool)
    requires PoolInv(p) && NamedIds(NamesOf(p)) && EventOk(p, ev) && PoolAdvance(p, ev, 0).0 == next
    requires Goes(next, rest, r, allowed) && (allowed ==> Allowed(p, ev))
    ensures Goes(p, [PoolInput(ev, 0)] + rest, r, allowed)
  {
    var steps := [PoolInput(ev, 0)] + rest;
    assert steps[1..] == rest;
    StepKeeps(p, ev, 0);
    FitsFirst(p, next, steps[0], rest);
    hide PoolAdvance, PoolInv, NamedIds, NamesOf, Allowed, EventOk, RunFits;
  }

  lemma GoesNowhere(p: Pool, allowed: bool)
    requires PoolInv(p) && NamedIds(NamesOf(p))
    ensures Goes(p, [], p, allowed)
  {}

  /** From k queries that wait for answers, the rest of the run ends with one too many. */
  ghost predicate RunsOver(s: Setting, k: nat, last: PoolEvent, allowed: bool)
    requires k <= s.cfg.concurrency
  {
    Goes(AllAsking(s, k), AddsThen(s, k, last), AllAsking(s, s.cfg.concurrency + 1), allowed)
  }

  /** From k queries that wait for answers, the run ends with one query too many waiting for answers. */
  lemma {:induction false} RunFrom(s: Setting, k: nat, last: PoolEvent, allowed: bool)
    requires GoodSetting(s) && k <= s.cfg.concurrency && StartsLast(s, last)
    requires allowed ==> Allowed(LastFresh(s, s.cfg.concurrency), last)
    ensures RunsOver(s, k, last, allowed)
    decreases s.cfg.concurrency - k
  {
    hide *;
    if k < s.cfg.concurrency {
      RunFrom(s, k + 1, last, allowed);
      RunNext(s, k, last, allowed);
    } else {
      RunLast(s, last, allowed);
    }
  }

  /** One more query is added, and it starts. */
  lemma RunNext(s: Setting, k: nat, last: PoolEvent, allowed: bool)
    requires GoodSetting(s) && k < s.cfg.concurrency && RunsOver(s, k + 1, last, allowed)
    ensures RunsOver(s, k, last, allowed)
  {
    PoolsOk(s, k);
    AddStep(s, k);
    AddAllowed(s, k);
    AddsThenIs(s, k, last);
    hide Goes, GoodSetting, PoolInv, NamedIds, Allowed, EventOk, AllAsking, LastFresh, Add, AddsThen, PoolAdvance;
    GoesFirst(AllAsking(s, k), Add(s, k), AllAsking(s, k + 1), AddsThen(s, k + 1, last),
              AllAsking(s, s.cfg.concurrency + 1), allowed);
  }

  /** The query beyond the limit is added, and does not start until the last event. */
  lemma RunLast(s: Setting, last: PoolEvent, allowed: bool)
    requires GoodSetting(s) && StartsLast(s, last)
    requires allowed ==> Allowed(LastFresh(s, s.cfg.concurrency), last)
    ensures RunsOver(s, s.cfg.concurrency, last, allowed)
  {
    var c := s.cfg.concurrency;
    LastGoes(s, last, allowed);
    PoolsOk(s, c);
    AddStep(s, c);
    AddAllowed(s, c);
    AddsThenIs(s, c, last);
    hide Goes, GoodSetting, PoolInv, NamedIds, Allowed, EventOk, AllAsking, LastFresh, Add, AddsThen, PoolAdvance;
    GoesFirst(AllAsking(s, c), Add(s, c), LastFresh(s, c), [PoolInput(last, 0)], AllAsking(s, c + 1), allowed);
  }

  lemma AddsThenIs(s: Setting, k: nat, last: PoolEvent)
    requires k <= s.cfg.concurrency
    ensures k < s.cfg.concurrency ==> AddsThen(s, k, last) == [PoolInput(Add(s, k), 0)] + AddsThen(s, k + 1, last)
    ensures k == s.cfg.concurrency ==> AddsThen(s, k, last) == [PoolInput(Add(s, k), 0)] + [PoolInput(last, 0)]
  {}

  lemma AddAllowed(s: Setting, k: nat)
    requires EventOk(AllAsking(s, k), Add(s, k))
    ensures Allowed(AllAsking(s, k), Add(s, k))
  {}

  lemma LastGoes(s: Setting, last: PoolEvent, allowed: bool)
    requires GoodSetting(s) && StartsLast(s, last)
    requires allowed ==> Allowed(LastFresh(s, s.cfg.concurrency), last)
    ensures Goes(LastFresh(s, s.cfg.concurrency), [PoolInput(last, 0)], AllAsking(s, s.cfg.concurrency + 1), allowed)
  {
    var c := s.cfg.concurrency;
    PoolsOk(s, c);
    PoolsOk(s, c + 1);
    GoesNowhere(AllAsking(s, c + 1), allowed);
    hide Goes, PoolInv, Allowed, EventOk, AllAsking, LastFresh, PoolAdvance;
    GoesFirst(LastFresh(s, c), last, AllAsking(s, c + 1), [], AllAsking(s, c + 1), allowed);
    assert [PoolInput(last, 0)] + [] == [PoolInput(last, 0)];
  }

  /** One query more than the limit allows has a request out. */
  ghost predicate Exceeded(p: Pool) {
    && !Bounded(NamesOf(p), p.cfg.concurrency)
    && forall i :: 0 <= i <= p.cfg.concurrency ==> i < |p.queries| && p.queries[i].q.inFlight > 0
  }

  lemma OneTooMany(s: Setting)
    ensures Exceeded(AllAsking(s, s.cfg.concurrency + 1))
  {
    assert NamesOf(AllAsking(s, s.cfg.concurrency + 1))[s.cfg.concurrency].1 == [s.node];
  }

  /** Whatever the limit, a failure reported for a query that has not started makes the pool exceed it: add
      one query more than the limit, then report a failure for the last one. */
  lemma UnstartedQueryExceeds(s: Setting)
    requires GoodSetting(s)
    ensures var p, steps := EmptyPool(s.self, s.cfg), AddsThen(s, 0, MessageFailure(Name(s.cfg.concurrency), s.self));
      && PoolInv(p) && NamedIds(NamesOf(p)) && RunFits(p, steps) && Exceeded(PoolRun(p, steps))
  {
    NamedStep(s, s.cfg.concurrency);
    RunFrom(s, 0, MessageFailure(Name(s.cfg.concurrency), s.self), false);
    assert AllAsking(s, 0) == EmptyPool(s.self, s.cfg);
    OneTooMany(s);
    hide AllAsking, PoolInv, Exceeded;
  }

  /** With a limit of 1 an allowed run exceeds it: add two queries, then report a failure for the first one,
      which has sent a request. */
  lemma LimitOneExceeded(s: Setting)
    requires GoodSetting(s) && s.cfg.concurrency == 1
    ensures var p, steps := EmptyPool(s.self, s.cfg), AddsThen(s, 0, MessageFailure(Name(0), s.self));
      && PoolInv(p) && NamedIds(NamesOf(p)) && RunFits(p, steps) && RunAllowed(p, steps) && Exceeded(PoolRun(p, steps))
  {
    SecondStarts(s);
    PoolsOk(s, 1);
    assert Allowed(LastFresh(s, 1), MessageFailure(Name(0), s.self)) by {
      AskingIs(s);
      assert Name(1) != Name(0);
    }
    RunFrom(s, 0, MessageFailure(Name(0), s.self), true);
    assert AllAsking(s, 0) == EmptyPool(s.self, s.cfg);
    OneTooMany(s);
    hide AllAsking, PoolInv, Exceeded, Allowed;
  }

  lemma {:induction false} BoundedToTheEnd(p: Pool, steps: seq<PoolInput>)
    requires PoolInv(p) && NamedIds(NamesOf(p)) && RunFits(p, steps) && AlwaysBounded(p, steps)
    ensures Bounded(NamesOf(PoolRun(p, steps)), p.cfg.concurrency)
    decreases |steps|
  {
    if steps != [] {
      RunFitsNext(p, steps);
      hide PoolAdvance, PoolInv, NamedIds, RunFits, Bounded;
      BoundedToTheEnd(PoolAdvance(p, steps[0].ev, steps[0].now).0, steps[1..]);
    }
  }

  /** Every allowed run of a pool stays within its limit. */
  ghost predicate LimitHolds(self: Key, cfg: PoolConfig)
    requires GoodPoolConfig(cfg)
  {
    EmptyPoolOk(self, cfg);
    forall steps: seq<PoolInput> :: RunFits(EmptyPool(self, cfg), steps) && RunAllowed(EmptyPool(self, cfg), steps)
      ==> AlwaysBounded(EmptyPool(self, cfg), steps)
  }

  /** Reports on messages that were sent keep the limit in every run exactly if it is at least 2. */
  lemma LimitHoldsIff(s: Setting)
    requires GoodSetting(s)
    ensures LimitHolds(s.self, s.cfg) <==> s.cfg.concurrency >= 2
  {
    var p := EmptyPool(s.self, s.cfg);
    EmptyPoolOk(s.self, s.cfg);
    if s.cfg.concurrency >= 2 {
      forall steps: seq<PoolInput> | RunFits(p, steps) && RunAllowed(p, steps)
        ensures AlwaysBounded(p, steps)
      {
        AllowedRunBounded(p, steps);
      }
    } else {
      LimitOneExceeded(s);
      var steps := AddsThen(s, 0, MessageFailure(Name(0), s.self));
      hide PoolInv, RunFits, RunAllowed, PoolRun, Bounded;
      if AlwaysBounded(p, steps) {
        BoundedToTheEnd(p, steps);
      }
    }
  }
}
