/** A run of a pool limited to two queries in which an ordinary poll exceeds the limit: an earlier event has
    started a query out of turn, which left a gap before it that the poll fills. */
module PoolGaps {
  import opened Keys
  import opened Options
  import opened QueryModel
  import opened QueryProofs
  import opened PoolModel
  import opened PoolProofs
  import opened PoolBound
  import opened PoolWaiting
  import opened PoolLimits

  /** Queries named from first on; each waits for an answer or has not started. */
  function Mixed(s: Setting, first: nat, asking: seq<bool>): (p: Pool)
    ensures |p.queries| == |asking| && p.self == s.self && p.cfg == s.cfg
    ensures forall i :: 0 <= i < |asking| ==>
      p.queries[i] == Entry(Name(first + i), if asking[i] then Asking(s) else Fresh(s))
  {
    Pool(s.self, s.cfg, seq(|asking|, i requires 0 <= i < |asking| =>
      Entry(Name(first + i), if asking[i] then Asking(s) else Fresh(s))))
  }

  lemma MixedOk(s: Setting, first: nat, asking: seq<bool>)
    requires GoodSetting(s)
    ensures PoolInv(Mixed(s, first, asking)) && NamedIds(NamesOf(Mixed(s, first, asking)))
  {
    AskingInv(s);
    AskingIs(s);
    hide Inv, Asking, Fresh, Name;
  }

  lemma MixedIs(s: Setting, p: Pool, first: nat, asking: seq<bool>)
    requires p.self == s.self && p.cfg == s.cfg && |p.queries| == |asking|
    requires forall i :: 0 <= i < |asking| ==>
      p.queries[i] == Entry(Name(first + i), if asking[i] then Asking(s) else Fresh(s))
    ensures p == Mixed(s, first, asking)
  {
    hide Asking, Fresh, Name;
    assert p.queries == Mixed(s, first, asking).queries;
  }

  lemma MixedSet(s: Setting, first: nat, asking: seq<bool>, i: nat)
    requires i < |asking|
    ensures var p := Mixed(s, first, asking);
      p.(queries := p.queries[i := Entry(Name(first + i), Asking(s))]) == Mixed(s, first, asking[i := true])
  {
    var p := Mixed(s, first, asking);
    hide Asking, Fresh, Name;
    MixedIs(s, p.(queries := p.queries[i := Entry(Name(first + i), Asking(s))]), first, asking[i := true]);
  }

  lemma MixedDrop(s: Setting, first: nat, rest: seq<bool>)
    ensures var p := Mixed(s, first, [true] + rest);
      p.(queries := RemoveAt(p.queries, 0)) == Mixed(s, first + 1, rest)
  {
    var p := Mixed(s, first, [true] + rest);
    hide Asking, Fresh, Name;
    MixedIs(s, p.(queries := RemoveAt(p.queries, 0)), first + 1, rest);
  }

  /** Advancing a query that has not started lets it send its message. */
  lemma AdvanceFreshAt(s: Setting, p: Pool, i: nat, ev: Event)
    requires GoodSetting(s) && TellsNothing(s, ev) && i < |p.queries| && p.queries[i].q == Fresh(s)
    ensures KeysFit(p.queries[i].q) && EventFits(p.queries[i].q, ev)
    ensures AdvanceQuery(p, i, ev, 0) ==
      (p.(queries := p.queries[i := Entry(p.queries[i].id, Asking(s))]), Some(QueryMessage(p.queries[i].id, s.node)))
  {
    FreshMessages(s, ev);
    hide Advance, Asking, Fresh, KeysFit, EventFits, GoodSetting;
  }

  lemma MixedStarts(s: Setting, first: nat, asking: seq<bool>, i: nat, ev: Event)
    requires GoodSetting(s) && TellsNothing(s, ev) && i < |asking| && !asking[i]
    ensures var p := Mixed(s, first, asking);
      && KeysFit(p.queries[i].q) && EventFits(p.queries[i].q, ev)
      && AdvanceQuery(p, i, ev, 0) == (Mixed(s, first, asking[i := true]), Some(QueryMessage(Name(first + i), s.node)))
  {
    hide *;
    AdvanceFreshAt(s, Mixed(s, first, asking), i, ev);
    MixedSet(s, first, asking, i);
  }

  /** The node of a query that waits has failed: the query is over. */
  lemma AskingEnds(s: Setting)
    requires GoodSetting(s)
    ensures KeysFit(Asking(s)) && EventFits(Asking(s), Failure(s.node))
    ensures Advance(Asking(s), Failure(s.node), 0).1 == Finished
  {
    var q := Asking(s);
    OneNodeOrder(s, Failed);
    var e := OnEvent(q, Failure(s.node));
    assert e.nodes == map[s.node := Failed];
    OneNodeOrder(s, q.nodes[s.node]);
    assert Scan(e, [s.node], 1, 0, 0, false) == (e, None);
  }

  lemma AdvanceEnds(s: Setting, p: Pool, i: nat)
    requires GoodSetting(s) && i < |p.queries| && p.queries[i].q == Asking(s)
    ensures KeysFit(p.queries[i].q) && EventFits(p.queries[i].q, Failure(s.node))
    ensures AdvanceQuery(p, i, Failure(s.node), 0) ==
      (p.(queries := RemoveAt(p.queries, i)), Some(QueryFinished(p.queries[i].id)))
  {
    AskingEnds(s);
    hide Advance, Asking, KeysFit, EventFits, GoodSetting, RemoveAt;
  }

  lemma FirstEnds(s: Setting, first: nat, rest: seq<bool>)
    requires GoodSetting(s)
    ensures var p := Mixed(s, first, [true] + rest);
      && KeysFit(p.queries[0].q) && EventFits(p.queries[0].q, Failure(s.node))
      && AdvanceQuery(p, 0, Failure(s.node), 0) == (Mixed(s, first + 1, rest), Some(QueryFinished(Name(first))))
  {
    hide *;
    AdvanceEnds(s, Mixed(s, first, [true] + rest), 0);
    MixedDrop(s, first, rest);
  }

  // ---------- the steps ----------

  /** A failure for a query that is over with it, or sends a message. */
  lemma NamedFails(p: Pool, id: QueryID, node: Key, i: nat, r: Pool, out: PoolOutput)
    requires PoolInv(p) && EventOk(p, MessageFailure(id, node)) && i < |p.queries| && i == IndexOf(p.queries, id)
    requires KeysFit(p.queries[i].q) && EventFits(p.queries[i].q, Failure(node))
    requires AdvanceQuery(p, i, Failure(node), 0) == (r, Some(out))
    ensures PoolAdvance(p, MessageFailure(id, node), 0) == (r, out)
  {
    hide AdvanceQuery, KeysFit, EventFits, PoolInv, Others;
  }

  lemma MixedIndex(s: Setting, first: nat, asking: seq<bool>, i: nat)
    requires i < |asking|
    ensures IndexOf(Mixed(s, first, asking).queries, Name(first + i)) == i
  {
    hide Asking, Fresh;
    var qs := Mixed(s, first, asking).queries;
    assert forall j :: 0 <= j < |asking| ==> |qs[j].id| == first + j + 1;
    assert |Name(first + i)| == first + i + 1;
    assert qs[i].id == Name(first + i);
    hide Name, Mixed;
  }

  lemma EventsFit(s: Setting, p: Pool, k: nat)
    requires GoodSetting(s) && p.self == s.self
    ensures EventOk(p, Add(s, k)) && EventOk(p, Poll) && IsAdd(Add(s, k))
    ensures EventOk(p, MessageFailure(Name(k), s.node)) && EventOk(p, MessageFailure(Name(k), s.self))
  {}

  lemma MixedNew(s: Setting, first: nat, asking: seq<bool>)
    ensures var p := Mixed(s, first, asking);
      AfterAdd(p, Add(s, first + |asking|)) == Mixed(s, first, asking + [false])
  {
    hide Asking;
    var p, id := Mixed(s, first, asking), Name(first + |asking|);
    assert forall j :: 0 <= j < |asking| ==> |p.queries[j].id| == first + j + 1;
    assert IndexOf(p.queries, id) == |p.queries|;
    hide Name;
    MixedIs(s, AfterAdd(p, Add(s, first + |asking|)), first, asking + [false]);
  }

  /** A query is added behind two that wait. */
  lemma FourthAdded(s: Setting)
    requires GoodSetting(s) && s.cfg.concurrency == 2
    ensures PoolInv(Mixed(s, 0, [true, true, false])) && EventOk(Mixed(s, 0, [true, true, false]), Add(s, 3))
    ensures PoolAdvance(Mixed(s, 0, [true, true, false]), Add(s, 3), 0).0 == Mixed(s, 0, [true, true, false, false])
  {
    hide *;
    var p, r := Mixed(s, 0, [true, true, false]), Mixed(s, 0, [true, true, false, false]);
    MixedOk(s, 0, [true, true, false]);
    MixedNew(s, 0, [true, true, false]);
    assert [true, true, false] + [false] == [true, true, false, false];
    TwoWaitAlready(s);
    EventsFit(s, p, 3);
    AddedThen(p, Add(s, 3), r, (r, AtCapacity));
  }

  /** An event that adds a query, and the pass that follows. */
  lemma AddedThen(p: Pool, ev: PoolEvent, r: Pool, res: (Pool, PoolOutput))
    requires PoolInv(p) && EventOk(p, ev) && AfterAdd(p, ev) == r && PoolInv(r) && r.queries != []
    requires IsAdd(ev) && Others(r, 0, "", 0, 0) == res
    ensures PoolAdvance(p, ev, 0) == res
  {
    hide PoolInv, Others, AddNewQuery;
  }

  predicate IsAdd(ev: PoolEvent) {
    ev.AddQuery?
  }

  lemma TwoWaitAlready(s: Setting)
    requires GoodSetting(s) && s.cfg.concurrency == 2
    ensures var r := Mixed(s, 0, [true, true, false, false]);
      PoolInv(r) && Others(r, 0, "", 0, 0) == (r, AtCapacity)
  {
    hide *;
    var r := Mixed(s, 0, [true, true, false, false]);
    MixedOk(s, 0, [true, true, false, false]);
    MixedHas(s, 0, [true, true, false, false]);
    SilenceTellsNothing(s);
    AdvanceAsking(s, r, 0, NoEvent);
    AdvanceAsking(s, r, 1, NoEvent);
    SecondSeen(r, r, None);
  }

  lemma MixedHas(s: Setting, first: nat, asking: seq<bool>)
    ensures var p := Mixed(s, first, asking);
      && |p.queries| == |asking| && p.cfg == s.cfg
      && forall i :: 0 <= i < |asking| ==> p.queries[i].id != "" && (asking[i] ==> p.queries[i].q == Asking(s))
  {
    hide Asking, Fresh;
  }

  lemma SilenceTellsNothing(s: Setting)
    ensures TellsNothing(s, NoEvent)
  {}

  /** A pass over a pool limited to two queries whose first query waits: it ends with the second. */
  lemma SecondSeen(p: Pool, r: Pool, out: Option<PoolOutput>)
    requires PoolInv(p) && |p.queries| >= 2 && p.cfg.concurrency == 2
    requires p.queries[0].id != "" && p.queries[1].id != ""
    requires forall i | 0 <= i < 2 :: KeysFit(p.queries[i].q) && EventFits(p.queries[i].q, NoEvent)
    requires AdvanceQuery(p, 0, NoEvent, 0) == (p, None) && AdvanceQuery(p, 1, NoEvent, 0) == (r, out)
    ensures Others(p, 0, "", 0, 0) == (r, if out.Some? then out.value else AtCapacity)
  {
    hide *;
    OthersUnfold(p, 0, "", 0, 0);
    OthersUnfold(p, 1, "", 1, 0);
  }

  /** The node of the first query fails, which ends it. */
  lemma FirstFails(s: Setting)
    requires GoodSetting(s)
    ensures var p, ev := Mixed(s, 0, [true, true, false, false]), MessageFailure(Name(0), s.node);
      && PoolInv(p) && EventOk(p, ev) && PoolAdvance(p, ev, 0).0 == Mixed(s, 1, [true, false, false])
  {
    hide *;
    var p := Mixed(s, 0, [true, true, false, false]);
    MixedOk(s, 0, [true, true, false, false]);
    FirstEnds(s, 0, [true, false, false]);
    assert [true] + [true, false, false] == [true, true, false, false];
    MixedIndex(s, 0, [true, true, false, false], 0);
    EventsFit(s, p, 0);
    NamedFails(p, Name(0), s.node, 0, Mixed(s, 1, [true, false, false]), QueryFinished(Name(0)));
  }

  /** A failure reported for the last query, which has not started, starts it out of turn. */
  lemma LastStarts(s: Setting)
    requires GoodSetting(s)
    ensures var p, ev := Mixed(s, 1, [true, false, false]), MessageFailure(Name(3), s.self);
      && PoolInv(p) && EventOk(p, ev) && PoolAdvance(p, ev, 0).0 == Mixed(s, 1, [true, false, true])
  {
    hide *;
    var p := Mixed(s, 1, [true, false, false]);
    MixedOk(s, 1, [true, false, false]);
    assert TellsNothing(s, Failure(s.self)) by { FailureTellsNothing(s); }
    MixedStarts(s, 1, [true, false, false], 2, Failure(s.self));
    MixedIndex(s, 1, [true, false, false], 2);
    assert [true, false, false][2 := true] == [true, false, true];
    EventsFit(s, p, 3);
    NamedFails(p, Name(3), s.self, 2, Mixed(s, 1, [true, false, true]), QueryMessage(Name(3), s.node));
  }

  lemma FailureTellsNothing(s: Setting)
    ensures TellsNothing(s, Failure(s.self))
  {}

  /** A poll passes the one query that waits before the gap, and fills the gap. */
  lemma PollFillsGap(s: Setting)
    requires GoodSetting(s) && s.cfg.concurrency == 2
    ensures var p := Mixed(s, 1, [true, false, true]);
      PoolInv(p) && EventOk(p, Poll) && PoolAdvance(p, Poll, 0).0 == Mixed(s, 1, [true, true, true])
  {
    hide *;
    var p := Mixed(s, 1, [true, false, true]);
    MixedOk(s, 1, [true, false, true]);
    MixedHas(s, 1, [true, false, true]);
    SilenceTellsNothing(s);
    MixedStarts(s, 1, [true, false, true], 1, NoEvent);
    assert [true, false, true][1 := true] == [true, true, true];
    AdvanceAsking(s, p, 0, NoEvent);
    SecondSeen(p, Mixed(s, 1, [true, true, true]), Some(QueryMessage(Name(2), s.node)));
    PolledThen(p, (Mixed(s, 1, [true, true, true]), QueryMessage(Name(2), s.node)));
  }

  /** A poll and its pass. */
  lemma PolledThen(p: Pool, res: (Pool, PoolOutput))
    requires PoolInv(p) && p.queries != [] && Others(p, 0, "", 0, 0) == res
    ensures EventOk(p, Poll) && PoolAdvance(p, Poll, 0) == res
  {
    hide PoolInv, Others;
  }

  // ---------- the run ----------

  /** Four queries are added, the first one's node fails, and the last one is named by a failure. */
  function Detour(s: Setting): seq<PoolInput> {
    [PoolInput(Add(s, 0), 0)] + ([PoolInput(Add(s, 1), 0)] + ([PoolInput(Add(s, 2), 0)] + ([PoolInput(Add(s, 3), 0)] + (
    [PoolInput(MessageFailure(Name(0), s.node), 0)] + ([PoolInput(MessageFailure(Name(3), s.self), 0)] + [])))))
  }

  lemma FirstAdds(s: Setting)
    requires GoodSetting(s) && s.cfg.concurrency == 2
    ensures forall k | 0 <= k < 3 :: PoolInv(AllAsking(s, k)) && EventOk(AllAsking(s, k), Add(s, k))
    ensures PoolAdvance(AllAsking(s, 0), Add(s, 0), 0).0 == AllAsking(s, 1)
    ensures PoolAdvance(AllAsking(s, 1), Add(s, 1), 0).0 == AllAsking(s, 2)
    ensures PoolAdvance(AllAsking(s, 2), Add(s, 2), 0).0 == Mixed(s, 0, [true, true, false])
  {
    AddStep(s, 0);
    AddStep(s, 1);
    AddStep(s, 2);
    MixedIs(s, LastFresh(s, 2), 0, [true, true, false]);
  }

  lemma DetourGoes(s: Setting)
    requires GoodSetting(s) && s.cfg.concurrency == 2
    ensures Goes(AllAsking(s, 0), Detour(s), Mixed(s, 1, [true, false, true]), false)
  {
    FirstAdds(s);
    FourthAdded(s);
    FirstFails(s);
    LastStarts(s);
    PoolsOk(s, 0);
    PoolsOk(s, 1);
    PoolsOk(s, 2);
    MixedOk(s, 0, [true, true, false]);
    MixedOk(s, 0, [true, true, false, false]);
    MixedOk(s, 1, [true, false, false]);
    MixedOk(s, 1, [true, false, true]);
    hide *;
    var r := Mixed(s, 1, [true, false, true]);
    GoesNowhere(r, false);
    GoesFirst(Mixed(s, 1, [true, false, false]), MessageFailure(Name(3), s.self), r, [], r, false);
    var t1 := [PoolInput(MessageFailure(Name(3), s.self), 0)] + [];
    GoesFirst(Mixed(s, 0, [true, true, false, false]), MessageFailure(Name(0), s.node),
              Mixed(s, 1, [true, false, false]), t1, r, false);
    var t2 := [PoolInput(MessageFailure(Name(0), s.node), 0)] + t1;
    GoesFirst(Mixed(s, 0, [true, true, false]), Add(s, 3), Mixed(s, 0, [true, true, false, false]), t2, r, false);
    var t3 := [PoolInput(Add(s, 3), 0)] + t2;
    GoesFirst(AllAsking(s, 2), Add(s, 2), Mixed(s, 0, [true, true, false]), t3, r, false);
    var t4 := [PoolInput(Add(s, 2), 0)] + t3;
    GoesFirst(AllAsking(s, 1), Add(s, 1), AllAsking(s, 2), t4, r, false);
    var t5 := [PoolInput(Add(s, 1), 0)] + t4;
    GoesFirst(AllAsking(s, 0), Add(s, 0), AllAsking(s, 1), t5, r, false);
    DetourIs(s);
  }

  lemma DetourIs(s: Setting)
    ensures Detour(s) == [PoolInput(Add(s, 0), 0)] + ([PoolInput(Add(s, 1), 0)] + ([PoolInput(Add(s, 2), 0)] + (
      [PoolInput(Add(s, 3), 0)] + ([PoolInput(MessageFailure(Name(0), s.node), 0)] + (
      [PoolInput(MessageFailure(Name(3), s.self), 0)] + [])))))
  {}

  lemma MixedWaiting(s: Setting, a: bool, b: bool, c: bool)
    requires GoodSetting(s)
    ensures HowManyWait(Mixed(s, 1, [a, b, c]).queries) ==
      (if a then 1 else 0) + (if b then 1 else 0) + (if c then 1 else 0)
  {
    FreshIs(s);
    var qs := Mixed(s, 1, [a, b, c]).queries;
    assert qs == [qs[0]] + ([qs[1]] + [qs[2]]);
    assert qs[1..] == [qs[1]] + [qs[2]] && qs[1..][1..] == [qs[2]] && [qs[2]][1..] == [];
    assert HowManyWait([qs[2]]) == if c then 1 else 0;
    assert HowManyWait(qs[1..]) == (if b then 1 else 0) + HowManyWait([qs[2]]);
  }

  /** From an empty pool with limit two: after the run exactly two queries wait, although the last event started
      one past the limit; the poll that follows, an event that is always allowed, makes them three. */
  lemma PollExceeds(s: Setting)
    requires GoodSetting(s) && s.cfg.concurrency == 2
    ensures var p := EmptyPool(s.self, s.cfg);
      && PoolInv(p) && NamedIds(NamesOf(p)) && RunFits(p, Detour(s))
      && var r := PoolRun(p, Detour(s));
      && HowManyWait(r.queries) == 2 && Allowed(r, Poll) && !StartsBeyond(r, Poll)
      && HowManyWait(PoolAdvance(r, Poll, 0).0.queries) == 3
  {
    DetourGoes(s);
    assert AllAsking(s, 0) == EmptyPool(s.self, s.cfg);
    PollFillsGap(s);
    MixedWaiting(s, true, false, true);
    MixedWaiting(s, true, true, true);
    hide AllAsking, Mixed, PoolInv, NamedIds, RunFits, PoolRun, Detour, PoolAdvance, HowManyWait;
  }
}
