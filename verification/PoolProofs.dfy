/** The pool's concurrency bound, over every run. */
module PoolProofs {
  import opened Keys
  import opened Options
  import opened Times
  import opened QueryModel
  import opened QueryRuns
  import opened PoolModel

  /** What the bound is about: each query's name and what it has messaged. */
  type Names = seq<(QueryID, seq<Key>)>

  ghost function NamesOf(p: Pool): (r: Names)
    ensures |r| == |p.queries|
    ensures forall i :: 0 <= i < |r| ==> r[i] == (p.queries[i].id, p.queries[i].q.messaged)
  {
    seq(|p.queries|, i requires 0 <= i < |p.queries| => (p.queries[i].id, p.queries[i].q.messaged))
  }

  /** What an output says about the names: a message went to the query at pos, or that query left the
      pool, or nothing changed. */
  ghost predicate Explains(a: Names, b: Names, out: PoolOutput, pos: nat) {
    match out
    case QueryMessage(id, node) => pos < |a| && a[pos].0 == id && b == a[pos := (id, a[pos].1 + [node])]
    case QueryFinished(id) => pos < |a| && a[pos].0 == id && b == RemoveAt(a, pos)
    case QueryTimeout(id) => pos < |a| && a[pos].0 == id && b == RemoveAt(a, pos)
    case _ => b == a
  }

  lemma NamesSet(p: Pool, i: nat, q: QueryState)
    requires i < |p.queries|
    ensures var r := p.(queries := p.queries[i := Entry(p.queries[i].id, q)]);
      NamesOf(r) == NamesOf(p)[i := (p.queries[i].id, q.messaged)]
  {
  }

  lemma NamesRemove(p: Pool, i: nat)
    requires i < |p.queries|
    ensures NamesOf(p.(queries := RemoveAt(p.queries, i))) == RemoveAt(NamesOf(p), i)
  {
  }

  lemma PromisedMessages(q: QueryState, ev: Event, r: QueryState, out: Output)
    requires Promised(q, ev, r, out)
    ensures r.messaged == if out.WaitingMessage? then q.messaged + [out.node] else q.messaged
  {
  }

  /** res is what advancing the query at position i of p may lead to. */
  ghost predicate StepRight(p: Pool, i: nat, res: (Pool, Option<PoolOutput>)) {
    && PoolInv(res.0) && res.0.self == p.self && res.0.cfg == p.cfg
    && (res.1 == None ==> NamesOf(res.0) == NamesOf(p))
    && (res.1.Some? ==> Explains(NamesOf(p), NamesOf(res.0), res.1.value, i))
    && (res.1.Some? ==> res.1.value.QueryMessage? || res.1.value.QueryFinished? || res.1.value.QueryTimeout?)
  }

  lemma OutcomeRight(p: Pool, i: nat, q: QueryState, out: Output, now: Time)
    requires i < |p.queries| && var r := Outcome(p, i, q, out, now).0; PoolInv(r)
    requires q.messaged == if out.WaitingMessage? then p.queries[i].q.messaged + [out.node] else p.queries[i].q.messaged
    ensures StepRight(p, i, Outcome(p, i, q, out, now))
  {
    hide PoolInv;
    assert NamesOf(p)[i] == (p.queries[i].id, p.queries[i].q.messaged);
    if out == Finished || (!out.WaitingMessage? && TimedOut(q, now, p.cfg.timeout)) {
      NamesRemove(p, i);
    } else {
      NamesSet(p, i, q);
      assert NamesOf(p)[i := NamesOf(p)[i]] == NamesOf(p);
    }
    hide RemoveAt;
    hide NamesOf;
  }

  lemma AdvanceQueryExplained(p: Pool, i: nat, ev: Event, now: Time)
    requires PoolInv(p) && i < |p.queries| && EventFits(p.queries[i].q, ev)
    ensures KeysFit(p.queries[i].q) && StepRight(p, i, AdvanceQuery(p, i, ev, now))
    ensures ev == Cancel ==> AdvanceQuery(p, i, ev, now).1 == Some(QueryFinished(p.queries[i].id))
  {
    hide Advance;
    hide Promised;
    hide StepRight;
    assert QueryOk(p, p.queries[i].q);
    QueryStep(p, p.queries[i].q, ev, now);
    AdvanceQueryKeeps(p, i, ev, now);
    if ev == Cancel { CancelFinishes(p.queries[i].q, now); }
    hide PoolInv;
    hide QueryOk;
    var (q, out) := Advance(p.queries[i].q, ev, now);
    PromisedMessages(p.queries[i].q, ev, q, out);
    OutcomeRight(p, i, q, out, now);
  }

  lemma CancelFinishes(q: QueryState, now: Time)
    requires KeysFit(q)
    ensures Advance(q, Cancel, now).1 == Finished
  {
  }

  /** No query is named by the empty id, which the pool uses for "no query". */
  ghost predicate NamedIds(a: Names) {
    forall i :: 0 <= i < |a| ==> a[i].0 != ""
  }

  /** The query the event was for is the one at eventPos; there is none if that is -1. */
  ghost predicate EventAt(a: Names, eventID: QueryID, eventPos: int) {
    if eventPos < 0 then eventID == "" && eventPos == -1 else eventPos < |a| && a[eventPos].0 == eventID
  }

  /** How many queries have been advanced when the pass stands at position j. */
  function Advanced(j: nat, eventPos: int): nat {
    if eventPos < 0 then j else if j <= eventPos then j + 1 else j
  }

  ghost predicate UniqueIds(a: Names) {
    forall i, j :: 0 <= i < j < |a| ==> a[i].0 != a[j].0
  }

  lemma InvUniqueIds(p: Pool)
    requires PoolInv(p)
    ensures UniqueIds(NamesOf(p))
  {
  }

  /** res is what the pass over p's queries may lead to: a message goes to the query at pos, a position
      below the limit, with one exception when the limit is 1; idle only if there is no query. */
  ghost predicate PassRight(p: Pool, eventPos: int, res: (Pool, PoolOutput), pos: nat) {
    && PoolInv(res.0) && res.0.self == p.self && res.0.cfg == p.cfg
    && Explains(NamesOf(p), NamesOf(res.0), res.1, pos)
    && (res.1.QueryMessage? ==> pos < p.cfg.concurrency || (p.cfg.concurrency == 1 && pos == 1 && eventPos == 0))
    && (res.1 == Idle ==> p.queries == [])
  }

  lemma PassRightFrom(p: Pool, j: nat, r: Pool, eventPos: int, res: (Pool, PoolOutput), pos: nat)
    requires StepRight(p, j, (r, None)) && PassRight(r, eventPos, res, pos)
    ensures PassRight(p, eventPos, res, pos)
  {
    hide PoolInv;
    assert |NamesOf(r)| == |NamesOf(p)|;
  }

  lemma OthersUnfold(p: Pool, j: nat, eventID: QueryID, inFlight: nat, now: Time)
    requires j < |p.queries| && PoolInv(p)
    ensures p.queries[j].id == eventID ==>
      Others(p, j, eventID, inFlight, now) == Others(p, j + 1, eventID, inFlight, now)
    ensures KeysFit(p.queries[j].q) && EventFits(p.queries[j].q, NoEvent)
    ensures p.queries[j].id != eventID ==>
      var (r, out) := AdvanceQuery(p, j, NoEvent, now);
      && PoolInv(r)
      && (out.Some? ==> Others(p, j, eventID, inFlight, now) == (r, out.value))
      && (out.None? && inFlight + 1 >= p.cfg.concurrency ==> Others(p, j, eventID, inFlight, now) == (r, AtCapacity))
      && (out.None? && inFlight + 1 < p.cfg.concurrency && j < |r.queries| ==>
        Others(p, j, eventID, inFlight, now) == Others(r, j + 1, eventID, inFlight + 1, now))
  {
    hide AdvanceQuery;
    InvFits(p, j);
    AdvanceQueryKeeps(p, j, NoEvent, now);
  }

  lemma OthersEnd(p: Pool, eventID: QueryID, inFlight: nat, now: Time, eventPos: int)
    requires PoolInv(p) && EventAt(NamesOf(p), eventID, eventPos) && inFlight == Advanced(|p.queries|, eventPos)
    ensures PassRight(p, eventPos, Others(p, |p.queries|, eventID, inFlight, now), 0)
  {
  }

  lemma {:induction false} OthersExplained(p: Pool, j: nat, eventID: QueryID, inFlight: nat, now: Time, eventPos: int)
    returns (pos: nat)
    requires j <= |p.queries| && PoolInv(p) && NamedIds(NamesOf(p)) && EventAt(NamesOf(p), eventID, eventPos)
    requires inFlight == Advanced(j, eventPos)
    requires inFlight < p.cfg.concurrency || j == 0 || (j == 1 && eventPos == 0)
    ensures PassRight(p, eventPos, Others(p, j, eventID, inFlight, now), pos)
    decreases |p.queries| - j, 1
  {
    assert p.cfg.concurrency >= 1;
    InvUniqueIds(p);
    hide StepRight;
    hide QueryOk;
    hide Others;
    hide AdvanceQuery;
    hide PassRight;
    hide PoolInv;
    pos := 0;
    if j == |p.queries| {
      OthersEnd(p, eventID, inFlight, now, eventPos);
    } else {
      assert NamesOf(p)[j].0 == p.queries[j].id;
      OthersUnfold(p, j, eventID, inFlight, now);
      if p.queries[j].id == eventID {
        assert eventPos == j;
        pos := OthersExplained(p, j + 1, eventID, inFlight, now, eventPos);
      } else {
        pos := OtherAdvanced(p, j, eventID, inFlight, now, eventPos);
      }
    }
  }

  lemma {:induction false} OtherAdvanced(p: Pool, j: nat, eventID: QueryID, inFlight: nat, now: Time, eventPos: int)
    returns (pos: nat)
    requires j < |p.queries| && PoolInv(p) && NamedIds(NamesOf(p)) && EventAt(NamesOf(p), eventID, eventPos)
    requires p.queries[j].id != eventID && j != eventPos && inFlight == Advanced(j, eventPos)
    requires inFlight < p.cfg.concurrency || (p.cfg.concurrency == 1 && (j == 0 || (j == 1 && eventPos == 0)))
    ensures PassRight(p, eventPos, Others(p, j, eventID, inFlight, now), pos)
    decreases |p.queries| - j, 0
  {
    hide StepRight;
    hide Others;
    hide AdvanceQuery;
    hide PassRight;
    hide PoolInv;
    OthersUnfold(p, j, eventID, inFlight, now);
    AdvanceQueryExplained(p, j, NoEvent, now);
    var (r, out) := AdvanceQuery(p, j, NoEvent, now);
    pos := j;
    if out.Some? {
      StepIsPass(p, j, eventPos, r, out.value);
    } else if inFlight + 1 >= p.cfg.concurrency {
      CapacityIsPass(p, j, eventPos, r);
    } else {
      StepNames(p, j, r);
      pos := OthersExplained(r, j + 1, eventID, inFlight + 1, now, eventPos);
      PassRightFrom(p, j, r, eventPos, Others(r, j + 1, eventID, inFlight + 1, now), pos);
    }
  }

  lemma InvFits(p: Pool, j: nat)
    requires PoolInv(p) && j < |p.queries|
    ensures KeysFit(p.queries[j].q)
  {
    assert QueryOk(p, p.queries[j].q);
  }

  lemma StepNames(p: Pool, j: nat, r: Pool)
    requires StepRight(p, j, (r, None))
    ensures NamesOf(r) == NamesOf(p) && |r.queries| == |p.queries| && PoolInv(r) && r.cfg == p.cfg && r.self == p.self
  {
    hide PoolInv;
    assert |NamesOf(r)| == |NamesOf(p)|;
  }

  lemma StepIsPass(p: Pool, j: nat, eventPos: int, r: Pool, out: PoolOutput)
    requires StepRight(p, j, (r, Some(out)))
    requires j < p.cfg.concurrency || (p.cfg.concurrency == 1 && j == 1 && eventPos == 0)
    ensures PassRight(p, eventPos, (r, out), j)
  {
    hide PoolInv;
  }

  lemma CapacityIsPass(p: Pool, j: nat, eventPos: int, r: Pool)
    requires StepRight(p, j, (r, None))
    ensures PassRight(p, eventPos, (r, AtCapacity), j)
  {
    hide PoolInv;
  }

  /** One pool step from any state the invariant allows. Where a message goes: to a query below the
      limit, or to the query the event was for, or, when the limit is 1, to the second query after an
      event for the first one. Idle means exactly that there is no query. */
  lemma PoolStepExplained(p: Pool, ev: PoolEvent, now: Time) returns (pos: nat)
    requires PoolInv(p) && PoolEventFits(p, ev) && NamedIds(NamesOf(AfterAdd(p, ev)))
    ensures var (r, out) := PoolAdvance(p, ev, now);
      && PoolInv(r) && r.self == p.self && r.cfg == p.cfg
      && Explains(NamesOf(AfterAdd(p, ev)), NamesOf(r), out, pos)
      && (out.QueryMessage? ==>
          || pos < p.cfg.concurrency
          || ((ev.MessageResponse? || ev.MessageFailure?) && out.id == ev.id)
          || (p.cfg.concurrency == 1 && pos == 1 && !ev.Poll? && NamesOf(p)[0].0 == Target(ev).0))
      && (out == Idle <==> AfterAdd(p, ev).queries == [])
  {
    AfterAddKeeps(p, ev);
    var a := AfterAdd(p, ev);
    var (id, qev) := Target(ev);
    var e := IndexOf(a.queries, id);
    pos := 0;
    if !ev.AddQuery? && !ev.Poll? && e < |a.queries| {
      TargetFits(a, ev, e);
      AdvanceQueryExplained(a, e, qev, now);
      var (b, out) := AdvanceQuery(a, e, qev, now);
      if out.Some? {
        pos := e;
      } else {
        pos := OthersExplained(b, 0, id, 1, now, e);
      }
    } else if a.queries != [] {
      pos := OthersExplained(a, 0, "", 0, now, -1);
    }
  }
}
