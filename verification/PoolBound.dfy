/** The limit on concurrent queries: in which steps it holds, and that it holds over every run whose events
    report on messages that were sent. */
module PoolBound {
  import opened Keys
  import opened Times
  import opened QueryModel
  import opened QueryProgress
  import opened PoolModel
  import opened PoolProofs

  /** Only the first limit queries have ever messaged anyone. */
  ghost predicate Bounded(a: Names, limit: nat) {
    forall i :: limit <= i < |a| ==> a[i].1 == []
  }

  /** The events a caller can pass: keys of the pool's length, and names that are not empty. */
  predicate EventOk(p: Pool, ev: PoolEvent) {
    PoolEventFits(p, ev) && (ev.AddQuery? ==> ev.id != "")
  }

  /** The events of a caller that reports only on messages it was asked to send. */
  ghost predicate Allowed(p: Pool, ev: PoolEvent) {
    && EventOk(p, ev)
    && (ev.MessageResponse? || ev.MessageFailure? ==>
        forall i :: 0 <= i < |p.queries| && p.queries[i].id == ev.id ==> p.queries[i].q.messaged != [])
  }

  /** A response or failure names a query past the limit that has a node left to contact. */
  ghost predicate StartsBeyond(p: Pool, ev: PoolEvent) {
    && (ev.MessageResponse? || ev.MessageFailure?)
    && var i := IndexOf(p.queries, ev.id);
    && p.cfg.concurrency <= i < |p.queries|
    && exists k :: OpenAfter(p.queries[i].q, Target(ev).1, k)
  }

  lemma ExplainsNamed(a: Names, b: Names, out: PoolOutput, pos: nat)
    requires Explains(a, b, out, pos) && NamedIds(a)
    ensures NamedIds(b)
  {
    if out.QueryFinished? || out.QueryTimeout? {
      assert forall i :: 0 <= i < |b| ==> b[i] == a[if i < pos then i else i + 1];
    }
  }

  /** The bound survives a step unless that messages from beyond the limit. */
  lemma ExplainsBounded(a: Names, b: Names, out: PoolOutput, pos: nat, limit: nat)
    requires Explains(a, b, out, pos) && Bounded(a, limit)
    ensures Bounded(b, limit) <==> !(out.QueryMessage? && pos >= limit)
  {
    if out.QueryFinished? || out.QueryTimeout? {
      assert forall i :: 0 <= i < |b| ==> b[i] == a[if i < pos then i else i + 1];
    }
    if out.QueryMessage? {
      assert b[pos].1 == a[pos].1 + [out.node];
    }
  }

  lemma AddBounded(p: Pool, ev: PoolEvent, limit: nat)
    requires EventOk(p, ev) && NamedIds(NamesOf(p))
    ensures Bounded(NamesOf(p), limit) ==> Bounded(NamesOf(AfterAdd(p, ev)), limit)
    ensures NamedIds(NamesOf(AfterAdd(p, ev)))
  {
    var a, n := AfterAdd(p, ev), NamesOf(p);
    assert forall i :: 0 <= i < |p.queries| ==> NamesOf(a)[i] == n[i];
    assert forall i :: 0 <= i < |p.queries| ==> n[i].1 == p.queries[i].q.messaged;
  }

  /** Every step keeps the pool's invariant and its names usable. */
  lemma StepKeeps(p: Pool, ev: PoolEvent, now: Time)
    requires PoolInv(p) && NamedIds(NamesOf(p)) && EventOk(p, ev)
    ensures var r := PoolAdvance(p, ev, now).0;
      PoolInv(r) && r.cfg == p.cfg && r.self == p.self && NamedIds(NamesOf(r))
  {
    AddBounded(p, ev, 0);
    var pos := PoolStepExplained(p, ev, now);
    hide PoolAdvance, PoolInv;
    ExplainsNamed(NamesOf(AfterAdd(p, ev)), NamesOf(PoolAdvance(p, ev, now).0), PoolAdvance(p, ev, now).1, pos);
  }

  /** An event for a query that has not messaged anyone: it starts, or it is over. */
  lemma UnstartedNamed(p: Pool, ev: PoolEvent, now: Time)
    requires PoolInv(p) && PoolEventFits(p, ev) && (ev.MessageResponse? || ev.MessageFailure?)
    requires var i := IndexOf(p.queries, ev.id); i < |p.queries| && p.queries[i].q.messaged == []
    ensures var i, out := IndexOf(p.queries, ev.id), PoolAdvance(p, ev, now).1;
      && (out.QueryMessage? ==> out.id == ev.id)
      && (out.QueryMessage? <==> exists k :: OpenAfter(p.queries[i].q, Target(ev).1, k))
  {
    var i, qev := IndexOf(p.queries, ev.id), Target(ev).1;
    TargetFits(p, ev, i);
    assert QueryOk(p, p.queries[i].q);
    UnstartedQuery(p.queries[i].q, qev, now);
    AdvanceQueryKeeps(p, i, qev, now);
    hide Advance, PoolInv, OpenAfter, Others;
  }

  lemma NamedOnce(p: Pool, pos: nat, id: QueryID)
    requires PoolInv(p) && pos < |p.queries| && p.queries[pos].id == id
    ensures IndexOf(p.queries, id) == pos
  {}

  /** One step keeps the bound exactly if it does not start a query beyond the limit, if that is at least 2. */
  lemma StepBoundedIff(p: Pool, ev: PoolEvent, now: Time)
    requires PoolInv(p) && p.cfg.concurrency >= 2 && EventOk(p, ev)
    requires NamedIds(NamesOf(p)) && Bounded(NamesOf(p), p.cfg.concurrency)
    ensures Bounded(NamesOf(PoolAdvance(p, ev, now).0), p.cfg.concurrency) <==> !StartsBeyond(p, ev)
  {
    var limit := p.cfg.concurrency;
    AddBounded(p, ev, limit);
    var pos := PoolStepExplained(p, ev, now);
    hide PoolAdvance, PoolInv, OpenAfter, PoolEventFits, Target;
    var (r, out) := PoolAdvance(p, ev, now);
    ExplainsBounded(NamesOf(AfterAdd(p, ev)), NamesOf(r), out, pos, limit);
    if ev.MessageResponse? || ev.MessageFailure? {
      var i := IndexOf(p.queries, ev.id);
      if limit <= i < |p.queries| {
        assert NamesOf(p)[i].1 == [];
        UnstartedNamed(p, ev, now);
      }
      if out.QueryMessage? {
        assert NamesOf(p)[pos].0 == p.queries[pos].id;
        NamedOnce(p, pos, out.id);
      }
    }
  }

  /** A caller that reports only on messages that were sent never starts a query beyond the limit. */
  lemma AllowedStaysWithin(p: Pool, ev: PoolEvent)
    requires Allowed(p, ev) && Bounded(NamesOf(p), p.cfg.concurrency)
    ensures !StartsBeyond(p, ev)
  {
    assert forall i :: 0 <= i < |p.queries| ==> NamesOf(p)[i].1 == p.queries[i].q.messaged;
  }

  // ---------- runs ----------

  datatype PoolInput = PoolInput(ev: PoolEvent, now: Time)

  ghost predicate RunFits(p: Pool, steps: seq<PoolInput>) {
    forall i :: 0 <= i < |steps| ==> EventOk(p, steps[i].ev)
  }

  lemma RunFitsNext(p: Pool, steps: seq<PoolInput>)
    requires PoolInv(p) && NamedIds(NamesOf(p)) && RunFits(p, steps) && steps != []
    ensures var next := PoolAdvance(p, steps[0].ev, steps[0].now).0;
      PoolInv(next) && NamedIds(NamesOf(next)) && RunFits(next, steps[1..]) && next.cfg == p.cfg && next.self == p.self
  {
    StepKeeps(p, steps[0].ev, steps[0].now);
    hide PoolAdvance, PoolInv, NamedIds;
    var next := PoolAdvance(p, steps[0].ev, steps[0].now).0;
    forall i | 0 <= i < |steps| - 1
      ensures EventOk(next, steps[1..][i].ev)
    {
      assert steps[1..][i] == steps[i + 1];
    }
  }

  /** The pool after a sequence of events, whatever they are and whenever they come. */
  ghost function PoolRun(p: Pool, steps: seq<PoolInput>): (r: Pool)
    requires PoolInv(p) && NamedIds(NamesOf(p)) && RunFits(p, steps)
    ensures PoolInv(r) && NamedIds(NamesOf(r)) && r.cfg == p.cfg && r.self == p.self
    decreases |steps|
  {
    if steps == [] then p else
    RunFitsNext(p, steps);
    PoolRun(PoolAdvance(p, steps[0].ev, steps[0].now).0, steps[1..])
  }

  /** Every event of the run is allowed in the state it meets. */
  ghost predicate RunAllowed(p: Pool, steps: seq<PoolInput>)
    requires PoolInv(p) && NamedIds(NamesOf(p)) && RunFits(p, steps)
    decreases |steps|
  {
    steps == [] || (
      RunFitsNext(p, steps);
      Allowed(p, steps[0].ev) && RunAllowed(PoolAdvance(p, steps[0].ev, steps[0].now).0, steps[1..]))
  }

  /** No event of the run starts a query beyond the limit. */
  ghost predicate NeverStartsBeyond(p: Pool, steps: seq<PoolInput>)
    requires PoolInv(p) && NamedIds(NamesOf(p)) && RunFits(p, steps)
    decreases |steps|
  {
    steps == [] || (
      RunFitsNext(p, steps);
      !StartsBeyond(p, steps[0].ev) && NeverStartsBeyond(PoolAdvance(p, steps[0].ev, steps[0].now).0, steps[1..]))
  }

  /** The bound holds at the start of the run and after each of its steps. */
  ghost predicate AlwaysBounded(p: Pool, steps: seq<PoolInput>)
    requires PoolInv(p) && NamedIds(NamesOf(p)) && RunFits(p, steps)
    decreases |steps|
  {
    Bounded(NamesOf(p), p.cfg.concurrency) && (
      steps == [] || (
        RunFitsNext(p, steps);
        AlwaysBounded(PoolAdvance(p, steps[0].ev, steps[0].now).0, steps[1..])))
  }

  /** A run stays within a limit of at least 2 exactly if none of its events starts a query beyond it. */
  lemma {:induction false} RunBoundedIff(p: Pool, steps: seq<PoolInput>)
    requires PoolInv(p) && p.cfg.concurrency >= 2 && RunFits(p, steps)
    requires NamedIds(NamesOf(p)) && Bounded(NamesOf(p), p.cfg.concurrency)
    ensures AlwaysBounded(p, steps) <==> NeverStartsBeyond(p, steps)
    decreases |steps|
  {
    if steps != [] {
      RunFitsNext(p, steps);
      StepBoundedIff(p, steps[0].ev, steps[0].now);
      hide PoolAdvance, PoolInv, Bounded, StartsBeyond, RunFits, NamesOf, NamedIds;
      var next := PoolAdvance(p, steps[0].ev, steps[0].now).0;
      if Bounded(NamesOf(next), p.cfg.concurrency) {
        RunBoundedIff(next, steps[1..]);
      }
    }
  }

  /** Reports on messages that were sent keep the limit, if it is at least 2. */
  lemma {:induction false} AllowedRunBounded(p: Pool, steps: seq<PoolInput>)
    requires PoolInv(p) && p.cfg.concurrency >= 2 && RunFits(p, steps)
    requires NamedIds(NamesOf(p)) && Bounded(NamesOf(p), p.cfg.concurrency) && RunAllowed(p, steps)
    ensures AlwaysBounded(p, steps) && Bounded(NamesOf(PoolRun(p, steps)), p.cfg.concurrency)
    decreases |steps|
  {
    if steps != [] {
      RunFitsNext(p, steps);
      AllowedStaysWithin(p, steps[0].ev);
      StepBoundedIff(p, steps[0].ev, steps[0].now);
      hide PoolAdvance, PoolInv, Bounded, StartsBeyond, RunFits, NamesOf, NamedIds, Allowed;
      AllowedRunBounded(PoolAdvance(p, steps[0].ev, steps[0].now).0, steps[1..]);
    }
  }

  // ---------- what the bound means for the network ----------

  /** Requests outstanding among the first n queries. */
  ghost function Outstanding(qs: seq<Entry>, n: nat): int
    requires n <= |qs|
  {
    if n == 0 then 0 else Outstanding(qs, n - 1) + qs[n - 1].q.inFlight
  }

  lemma InFlightOf(p: Pool, i: nat)
    requires PoolInv(p) && Bounded(NamesOf(p), p.cfg.concurrency) && i < |p.queries|
    ensures p.queries[i].q.inFlight <= if i < p.cfg.concurrency then p.cfg.queryCfg.concurrency else 0
  {
    var q := p.queries[i].q;
    assert QueryOk(p, q);
    if i >= p.cfg.concurrency {
      assert NamesOf(p)[i].1 == [];
      NothingMessaged(q);
    }
  }

  lemma OneMore(n: nat, k: nat)
    ensures (n + 1) * k == n * k + k
  {}

  lemma {:induction false} OutstandingBounded(p: Pool, n: nat)
    requires PoolInv(p) && Bounded(NamesOf(p), p.cfg.concurrency) && n <= |p.queries|
    ensures Outstanding(p.queries, n) <=
      (if n < p.cfg.concurrency then n else p.cfg.concurrency) * p.cfg.queryCfg.concurrency
  {
    hide PoolInv, Bounded, NamesOf;
    if n > 0 {
      OutstandingBounded(p, n - 1);
      InFlightOf(p, n - 1);
      OneMore(n - 1, p.cfg.queryCfg.concurrency);
    }
  }

  lemma AtMost(n: nat, c: nat, k: nat)
    requires n <= c
    ensures n * k <= c * k
  {
    assert c * k == n * k + (c - n) * k;
  }

  ghost function EmptyPool(self: Key, cfg: PoolConfig): Pool {
    Pool(self, cfg, [])
  }

  lemma EmptyPoolOk(self: Key, cfg: PoolConfig)
    requires GoodPoolConfig(cfg)
    ensures PoolInv(EmptyPool(self, cfg)) && NamedIds(NamesOf(EmptyPool(self, cfg)))
  {}

  /** From an empty pool, whatever is added, answered, stopped and polled, and whenever: only the first
      concurrency queries have messaged anyone, and no more than concurrency times the per-query
      concurrency requests are outstanding. */
  lemma PoolNeverExceedsItsLimits(self: Key, cfg: PoolConfig, steps: seq<PoolInput>)
    requires GoodPoolConfig(cfg) && cfg.concurrency >= 2 && RunFits(EmptyPool(self, cfg), steps)
    requires (EmptyPoolOk(self, cfg); RunAllowed(EmptyPool(self, cfg), steps))
    ensures PoolInv(EmptyPool(self, cfg)) && NamedIds(NamesOf(EmptyPool(self, cfg)))
    ensures var r := PoolRun(EmptyPool(self, cfg), steps);
      && Bounded(NamesOf(r), cfg.concurrency)
      && Outstanding(r.queries, |r.queries|) <= cfg.concurrency * cfg.queryCfg.concurrency
  {
    EmptyPoolOk(self, cfg);
    AllowedRunBounded(EmptyPool(self, cfg), steps);
    var r := PoolRun(EmptyPool(self, cfg), steps);
    OutstandingBounded(r, |r.queries|);
    hide *;
    var n := if |r.queries| < cfg.concurrency then |r.queries| else cfg.concurrency;
    AtMost(n, cfg.concurrency, cfg.queryCfg.concurrency);
  }
}
