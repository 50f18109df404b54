/** The query pool as a state machine: one event, then at most one query is asked to do something. */
module PoolModel {
  import opened Keys
  import opened Options
  import opened Times
  import opened QueryModel
  import opened QueryProofs
  import opened QueryRuns
  import QueryStalls

  type QueryID = string

  datatype PoolConfig = PoolConfig(concurrency: nat, timeout: nat, queryCfg: Config)

  predicate GoodPoolConfig(cfg: PoolConfig) {
    cfg.concurrency >= 1 && cfg.timeout >= 1 && GoodConfig(cfg.queryCfg)
  }

  datatype PoolEvent =
    | AddQuery(id: QueryID, target: Key, known: seq<Key>)
    | StopQuery(id: QueryID)
    | MessageResponse(id: QueryID, node: Key, closer: seq<Key>)
    | MessageFailure(id: QueryID, node: Key)
    | Poll

  datatype PoolOutput =
    | Idle
    | QueryMessage(id: QueryID, node: Key)
    | AtCapacity
    | WithCapacity
    | QueryFinished(id: QueryID)
    | QueryTimeout(id: QueryID)

  datatype Entry = Entry(id: QueryID, q: QueryState)

  datatype Pool = Pool(self: Key, cfg: PoolConfig, queries: seq<Entry>)

  // ---------- the step ----------

  /** The position of the query named id, or the number of queries. */
  function IndexOf(qs: seq<Entry>, id: QueryID): (i: nat)
    ensures i <= |qs|
    ensures i < |qs| ==> qs[i].id == id
    ensures forall j :: 0 <= j < i ==> qs[j].id != id
  {
    if qs == [] then 0
    else if qs[0].id == id then 0
    else
      var i := 1 + IndexOf(qs[1..], id);
      assert forall j :: 1 <= j < |qs| ==> qs[j] == qs[1..][j - 1];
      i
  }

  /** The whole-query timeout. An unset start time reads as infinitely long ago. */
  predicate TimedOutStats(stats: Stats, now: Time, timeout: nat) {
    stats.start == None || now - stats.start.value > timeout
  }

  predicate TimedOut(q: QueryState, now: Time, timeout: nat) {
    TimedOutStats(q.stats, now, timeout)
  }

  function RemoveAt<T>(s: seq<T>, i: nat): seq<T>
    requires i < |s|
  {
    s[..i] + s[i + 1..]
  }

  /** What every reachable pool satisfies: uniquely named, unfinished queries, each in a state its own
      invariant allows, all with the pool's own key and configuration. */
  ghost predicate PoolInv(p: Pool) {
    && GoodPoolConfig(p.cfg)
    && (forall i :: 0 <= i < |p.queries| ==> QueryOk(p, p.queries[i].q))
    && (forall i, j :: 0 <= i < j < |p.queries| ==> p.queries[i].id != p.queries[j].id)
  }

  ghost predicate QueryOk(p: Pool, q: QueryState) {
    Inv(q) && !q.finished && q.self == p.self && q.cfg == p.cfg.queryCfg
  }

  /** What the pool makes of a query's answer: the query at position i is now in state q and said out. No
      output means the query waits and counts as in flight. */
  function Outcome(p: Pool, i: nat, q: QueryState, out: Output, now: Time): (Pool, Option<PoolOutput>)
    requires i < |p.queries|
  {
    var id := p.queries[i].id;
    match out
    case WaitingMessage(node) => (p.(queries := p.queries[i := Entry(id, q)]), Some(QueryMessage(id, node)))
    case Finished => (p.(queries := RemoveAt(p.queries, i)), Some(QueryFinished(id)))
    case _ =>
      if TimedOut(q, now, p.cfg.timeout) then (p.(queries := RemoveAt(p.queries, i)), Some(QueryTimeout(id)))
      else (p.(queries := p.queries[i := Entry(id, q)]), None)
  }

  /** Advance the query at position i. */
  ghost function AdvanceQuery(p: Pool, i: nat, ev: Event, now: Time): (Pool, Option<PoolOutput>)
    requires i < |p.queries| && KeysFit(p.queries[i].q) && EventFits(p.queries[i].q, ev)
  {
    var (q, out) := Advance(p.queries[i].q, ev, now);
    Outcome(p, i, q, out, now)
  }

  /** One query's step, as the pool sees it. */
  lemma QueryStep(p: Pool, q: QueryState, ev: Event, now: Time)
    requires QueryOk(p, q) && EventFits(q, ev)
    ensures KeysFit(q) && KeysFit(Advance(q, ev, now).0)
    ensures Promised(q, ev, Advance(q, ev, now).0, Advance(q, ev, now).1)
    ensures Advance(q, ev, now).1 != Finished ==> QueryOk(p, Advance(q, ev, now).0)
  {
    hide Advance;
    AdvancePromises(q, ev, now);
    PromisedInv(q, ev, Advance(q, ev, now).0, Advance(q, ev, now).1);
    hide Inv;
    InvKeysFit(Advance(q, ev, now).0);
  }

  lemma SetKeeps(p: Pool, i: nat, q: QueryState)
    requires PoolInv(p) && i < |p.queries| && QueryOk(p, q)
    ensures PoolInv(p.(queries := p.queries[i := Entry(p.queries[i].id, q)]))
  {
    hide Inv;
    var r := p.(queries := p.queries[i := Entry(p.queries[i].id, q)]);
    assert forall q :: QueryOk(p, q) ==> QueryOk(r, q);
  }

  lemma RemoveKeeps(p: Pool, i: nat)
    requires PoolInv(p) && i < |p.queries|
    ensures PoolInv(p.(queries := RemoveAt(p.queries, i)))
  {
    hide Inv;
    var r := p.(queries := RemoveAt(p.queries, i));
    assert forall q :: QueryOk(p, q) ==> QueryOk(r, q);
    assert forall j :: 0 <= j < |r.queries| ==> r.queries[j] == p.queries[if j < i then j else j + 1];
  }

  lemma AdvanceQueryKeeps(p: Pool, i: nat, ev: Event, now: Time)
    requires PoolInv(p) && i < |p.queries| && EventFits(p.queries[i].q, ev)
    ensures KeysFit(p.queries[i].q)
    ensures var r := AdvanceQuery(p, i, ev, now).0; PoolInv(r) && r.self == p.self && r.cfg == p.cfg
  {
    hide Advance;
    hide Promised;
    assert QueryOk(p, p.queries[i].q);
    QueryStep(p, p.queries[i].q, ev, now);
    var (q, out) := Advance(p.queries[i].q, ev, now);
    RemoveKeeps(p, i);
    if out != Finished {
      SetKeeps(p, i, q);
    }
    hide PoolInv;
    hide QueryOk;
  }

  /** A query whose slots are taken has sent its first message. */
  lemma BlockedStarted(q: QueryState)
    requires Inv(q) && KeysFit(q) && QueryStalls.Blocked(q)
    ensures q.stats.start.Some?
  {
    var k :| k in WaitingSet(q.nodes);
    assert k in q.messaged;
  }

  /** What becomes of a query that is left as it is. */
  lemma OutcomeWaits(p: Pool, i: nat, now: Time)
    requires i < |p.queries| && p.queries[i].q.stats.start.Some?
    ensures Outcome(p, i, p.queries[i].q, WaitingAtCapacity, now) ==
      if now > p.queries[i].q.stats.start.value + p.cfg.timeout
      then (p.(queries := p.queries[..i] + p.queries[i + 1..]), Some(QueryTimeout(p.queries[i].id))) else (p, None)
  {
    assert p.queries[i := p.queries[i]] == p.queries;
  }

  /** A query that polling does not change is taken out once the pool's timeout has passed, not before. */
  lemma BlockedTimesOut(p: Pool, i: nat, now: Time)
    requires i < |p.queries| && Inv(p.queries[i].q) && !p.queries[i].q.finished
    requires KeysFit(p.queries[i].q) && QueryStalls.Blocked(p.queries[i].q)
    ensures EventFits(p.queries[i].q, NoEvent) && p.queries[i].q.stats.start.Some?
    ensures AdvanceQuery(p, i, NoEvent, now) ==
      if now > p.queries[i].q.stats.start.value + p.cfg.timeout
      then (p.(queries := p.queries[..i] + p.queries[i + 1..]), Some(QueryTimeout(p.queries[i].id))) else (p, None)
  {
    BlockedStarted(p.queries[i].q);
    hide Inv, KeysFit, QueryStalls.Blocked, Advance, Outcome;
    QueryStalls.PollBlocked(p.queries[i].q, now);
    OutcomeWaits(p, i, now);
  }

  function AddNewQuery(p: Pool, id: QueryID, target: Key, known: seq<Key>): Pool {
    if IndexOf(p.queries, id) < |p.queries| then p
    else p.(queries := p.queries + [Entry(id, NewQuery(p.self, target, known, p.cfg.queryCfg))])
  }

  /** Go over the queries from position j on, skipping the one the event already advanced. */
  ghost function Others(p: Pool, j: nat, eventID: QueryID, inFlight: nat, now: Time): (Pool, PoolOutput)
    requires j <= |p.queries| && PoolInv(p)
    decreases |p.queries| - j
  {
    if j == |p.queries| then (p, if inFlight > 0 then WithCapacity else Idle)
    else if p.queries[j].id == eventID then Others(p, j + 1, eventID, inFlight, now)
    else
      AdvanceQueryKeeps(p, j, NoEvent, now);
      var (r, out) := AdvanceQuery(p, j, NoEvent, now);
      if out.Some? then (r, out.value)
      else if inFlight + 1 >= p.cfg.concurrency then (r, AtCapacity)
      else Others(r, j + 1, eventID, inFlight + 1, now)
  }

  /** The query event a pool event carries, if any, and the query it is for. */
  function Target(ev: PoolEvent): (QueryID, Event) {
    match ev
    case StopQuery(id) => (id, Cancel)
    case MessageResponse(id, node, closer) => (id, Response(node, closer))
    case MessageFailure(id, node) => (id, Failure(node))
    case AddQuery(_, _, _) => ("", NoEvent)
    case Poll => ("", NoEvent)
  }

  predicate Fit(n: nat, ks: seq<Key>) {
    forall i :: 0 <= i < |ks| ==> |ks[i]| == n
  }

  predicate PoolEventFits(p: Pool, ev: PoolEvent) {
    match ev
    case AddQuery(_, target, known) => |target| == |p.self| && Fit(|p.self|, known)
    case MessageResponse(_, node, closer) => |node| == |p.self| && Fit(|p.self|, closer)
    case MessageFailure(_, node) => |node| == |p.self|
    case _ => true
  }

  /** The pool after the event itself has been looked at, but before any query is advanced. */
  function AfterAdd(p: Pool, ev: PoolEvent): Pool {
    match ev
    case AddQuery(id, target, known) => AddNewQuery(p, id, target, known)
    case _ => p
  }

  ghost function PoolAdvance(p: Pool, ev: PoolEvent, now: Time): (Pool, PoolOutput)
    requires PoolInv(p) && PoolEventFits(p, ev)
  {
    var a := AfterAdd(p, ev);
    AfterAddKeeps(p, ev);
    var (id, qev) := Target(ev);
    var e := IndexOf(a.queries, id);
    if !ev.AddQuery? && !ev.Poll? && e < |a.queries| then
      TargetFits(a, ev, e);
      AdvanceQueryKeeps(a, e, qev, now);
      var (b, out) := AdvanceQuery(a, e, qev, now);
      if out.Some? then (b, out.value)
      else Others(b, 0, id, 1, now)
    else if a.queries == [] then (a, Idle)
    else Others(a, 0, "", 0, now)
  }

  lemma TargetFits(p: Pool, ev: PoolEvent, i: nat)
    requires PoolInv(p) && PoolEventFits(p, ev) && i < |p.queries|
    ensures EventFits(p.queries[i].q, Target(ev).1)
  {
    assert QueryOk(p, p.queries[i].q);
  }

  lemma AfterAddKeeps(p: Pool, ev: PoolEvent)
    requires PoolInv(p) && PoolEventFits(p, ev)
    ensures var a := AfterAdd(p, ev); PoolInv(a) && a.self == p.self && a.cfg == p.cfg
  {
    if ev.AddQuery? {
      NewQueryInv(p.self, ev.target, ev.known, p.cfg.queryCfg);
      assert forall q :: QueryOk(p, q) ==> QueryOk(AfterAdd(p, ev), q);
    }
  }
}
