/** The pool as the program runs it: a list of query objects, an index of the same objects by name, and a
    counter rebuilt by every pass. */
module Pools {
  import opened Keys
  import opened Options
  import opened Times
  import opened QueryModel
  import opened QueryProofs
  import opened Queries
  import opened PoolModel
  import QueryRuns
  import PoolProofs
  import PoolBound
  import PoolSteps

  ghost function Views(qs: seq<Query>): (r: seq<Entry>)
    reads qs
    ensures |r| == |qs| && forall i :: 0 <= i < |qs| ==> r[i] == Entry(qs[i].id, qs[i].View())
  {
    seq(|qs|, i requires 0 <= i < |qs| reads qs => Entry(qs[i].id, qs[i].View()))
  }

  ghost predicate AllValid(qs: seq<Query>)
    reads qs
  {
    forall i :: 0 <= i < |qs| ==> qs[i].Valid()
  }

  /** List and index hold the same query objects, each once, under its own name. */
  ghost predicate IndexOk(qs: seq<Query>, index: map<QueryID, Query>) {
    && (forall i, j :: 0 <= i < j < |qs| ==> qs[i] != qs[j])
    && (forall i :: 0 <= i < |qs| ==> qs[i].id in index && index[qs[i].id] == qs[i])
    && (forall id :: id in index ==> index[id] in qs && index[id].id == id)
  }

  lemma IndexWithout(qs: seq<Query>, index: map<QueryID, Query>, i: nat)
    requires IndexOk(qs, index) && i < |qs|
    ensures IndexOk(RemoveAt(qs, i), index - {qs[i].id})
  {
    var r, x := RemoveAt(qs, i), index - {qs[i].id};
    assert forall j :: 0 <= j < |r| ==> r[j] == qs[if j < i then j else j + 1];
    forall id | id in x ensures x[id] in r {
      var j :| 0 <= j < |qs| && qs[j] == index[id];
      assert r[if j < i then j else j - 1] == x[id];
    }
  }

  lemma ViewsWithout(queries: seq<Query>, pos: nat)
    requires pos < |queries|
    ensures Views(RemoveAt(queries, pos)) == RemoveAt(Views(queries), pos)
  {
    hide Query.View;
  }

  lemma RemoveUpdated<T>(s: seq<T>, i: nat, x: T)
    requires i < |s|
    ensures RemoveAt(s[i := x], i) == RemoveAt(s, i)
  {}

  class QueryPool {
    const self: Key
    const cfg: PoolConfig
    var queries: seq<Query>
    var queryIndex: map<QueryID, Query>
    var queriesInFlight: int

    ghost function View(): Pool
      reads this, queries
    {
      Pool(self, cfg, Views(queries))
    }

    ghost predicate Indexed()
      reads this
    {
      IndexOk(queries, queryIndex)
    }

    ghost predicate Valid()
      reads this, queries
    {
      && Indexed() && PoolInv(View())
      && AllValid(queries)
    }

    constructor (self: Key, cfg: PoolConfig)
      requires GoodPoolConfig(cfg)
      ensures Valid() && queries == [] && this.self == self && this.cfg == cfg
    {
      this.self, this.cfg := self, cfg;
      queries, queryIndex, queriesInFlight := [], map[], 0;
    }

    /** The position of the query named id in the list, or the length of the list. */
    method PositionOf(id: QueryID) returns (i: nat)
      requires Indexed()
      ensures i == IndexOf(Views(queries), id)
    {
      hide Query.View, IndexOk;
      i := 0;
      while i < |queries| && queries[i].id != id
        invariant i <= |queries| && forall j :: 0 <= j < i ==> queries[j].id != id
      {
        i := i + 1;
      }
      ghost var p := IndexOf(Views(queries), id);
      assert p < |queries| ==> queries[p].id == id;
      assert i < |queries| ==> Views(queries)[i].id == id;
    }

    /** Take the query named id out of the list and out of the index, if there is one. */
    method RemoveQuery(id: QueryID)
      requires Indexed() && AllValid(queries)
      modifies this`queries, this`queryIndex
      ensures Indexed() && AllValid(queries) && queryIndex == old(queryIndex) - {id}
      ensures var pos := old(IndexOf(Views(queries), id));
        && queries == (if pos < |old(queries)| then RemoveAt(old(queries), pos) else old(queries))
        && Views(queries) == (if pos < |old(queries)| then RemoveAt(old(Views(queries)), pos) else old(Views(queries)))
    {
      hide Query.View, Query.Valid, IndexOf, RemoveAt, Views;
      var i := PositionOf(id);
      IndexedFinds(id);
      if i < |queries| {
        NamedAt(id);
        hide IndexOk;
        CutOut(i);
      } else {
        assert queryIndex - {id} == queryIndex;
      }
      hide IndexOk;
    }

    /** Close the gap in the list and forget the name. */
    method CutOut(i: nat)
      requires Indexed() && AllValid(queries) && i < |queries|
      modifies this`queries, this`queryIndex
      ensures Indexed() && AllValid(queries) && queryIndex == old(queryIndex) - {old(queries)[i].id}
      ensures queries == RemoveAt(old(queries), i) && Views(queries) == RemoveAt(old(Views(queries)), i)
    {
      hide Query.View, Query.Valid;
      IndexWithout(queries, queryIndex, i);
      ViewsWithout(queries, i);
      hide IndexOk, Views;
      queryIndex := queryIndex - {queries[i].id};
      queries := queries[..i] + queries[i + 1..];
    }

    /** Remove the query at a known position. */
    method RemoveListed(id: QueryID, ghost pos: nat)
      requires Indexed() && AllValid(queries) && pos < |queries| && queries[pos].id == id
      modifies this`queries, this`queryIndex
      ensures Indexed() && AllValid(queries)
      ensures queries == RemoveAt(old(queries), pos) && queryIndex == old(queryIndex) - {id}
      ensures Views(queries) == RemoveAt(old(Views(queries)), pos)
    {
      OnlyAt(pos);
      hide *;
      RemoveQuery(id);
    }

    lemma NamedAt(id: QueryID)
      requires IndexOf(Views(queries), id) < |queries|
      ensures queries[IndexOf(Views(queries), id)].id == id
    {}

    /** Add a new query under a name not yet in use. */
    method AddQuery(id: QueryID, target: Key, known: seq<Key>)
      requires Valid() && PoolEventFits(View(), PoolEvent.AddQuery(id, target, known))
      modifies this`queries, this`queryIndex
      ensures Valid() && View() == AddNewQuery(old(View()), id, target, known)
      ensures forall q :: q in queries ==> q in old(queries) || fresh(q)
      ensures queriesInFlight == old(queriesInFlight)
    {
      hide Inv;
      hide NewQuery;
      hide Query.Valid;
      hide Query.View;
      ghost var v := View();
      AfterAddKeeps(v, PoolEvent.AddQuery(id, target, known));
      IndexedFinds(id);
      assert GoodConfig(cfg.queryCfg) && |self| == |target|;
      hide PoolInv;
      if id in queryIndex {
        return;
      }
      var qry := new Query(self, id, target, known, cfg.queryCfg);
      Attach(qry);
      assert View() == AddNewQuery(v, id, target, known);
    }

    lemma OnlyAt(pos: nat)
      requires Indexed() && pos < |queries|
      ensures IndexOf(Views(queries), queries[pos].id) == pos
    {
      var i := IndexOf(Views(queries), queries[pos].id);
      assert Views(queries)[pos].id == queries[pos].id;
      assert i <= pos && queries[i].id == queries[pos].id;
      assert queries[i] == queries[pos];
    }

    method Attach(qry: Query)
      requires Indexed() && AllValid(queries) && qry.Valid()
      requires qry !in queries && qry.id !in queryIndex
      modifies this`queries, this`queryIndex
      ensures Indexed() && AllValid(queries)
      ensures Views(queries) == old(Views(queries)) + [Entry(qry.id, qry.View())]
      ensures queries == old(queries) + [qry]
    {
      hide Query.Valid;
      hide Query.View;
      queries := queries + [qry];
      queryIndex := queryIndex[qry.id := qry];
    }

    lemma IndexedFinds(id: QueryID)
      requires Indexed()
      ensures id in queryIndex <==> IndexOf(Views(queries), id) < |queries|
    {
      IndexFinds(Views(queries), id);
      if id in queryIndex {
        var i :| 0 <= i < |queries| && queries[i] == queryIndex[id];
        assert Views(queries)[i].id == id;
      }
    }

    /** Let one query of the list take its step; nothing else changes. */
    method StepQuery(qry: Query, ev: Event, now: Time, ghost pos: nat) returns (state: Output)
      requires Valid() && pos < |queries| && qry == queries[pos] && EventFits(qry.View(), ev)
      modifies queries
      ensures Indexed() && AllValid(queries)
      ensures KeysFit(old(qry.View())) && (qry.View(), state) == QueryModel.Advance(old(qry.View()), ev, now)
      ensures Views(queries) == old(Views(queries))[pos := Entry(qry.id, qry.View())]
    {
      hide Inv;
      hide PoolInv;
      hide QueryModel.Advance;
      hide KeysFit;
      hide EventFits;
      hide Query.Valid;
      hide Query.View;
      hide QueryRuns.Promised;
      state := qry.Advance(ev, now);
    }

    /** Advance one query of the list and act on its answer. */
    method AdvanceQuery(qry: Query, ev: Event, now: Time, ghost pos: nat) returns (out: Option<PoolOutput>)
      requires Valid() && pos < |queries| && qry == queries[pos] && EventFits(qry.View(), ev)
      modifies this, queries
      ensures Valid() && KeysFit(old(View()).queries[pos].q)
      ensures (View(), out) == PoolModel.AdvanceQuery(old(View()), pos, ev, now)
      ensures var (r, state) := QueryModel.Advance(old(View()).queries[pos].q, ev, now);
        PoolSteps.Acts(old(View()), pos, r, state, now, View(), out)
      ensures out == None ==> queries == old(queries) && queriesInFlight == old(queriesInFlight) + 1
    {
      hide Inv;
      hide QueryModel.Advance;
      hide KeysFit;
      hide EventFits;
      hide Query.Valid;
      hide AllValid;
      ghost var v := View();
      AdvanceQueryKeeps(v, pos, ev, now);
      PoolSteps.QueryActs(v, pos, ev, now);
      hide PoolInv;
      hide IndexOk;
      hide PoolSteps.Acts;
      var state := StepQuery(qry, ev, now, pos);
      hide Query.View, Outcome, Views;
      out := Act(qry, state, now, v, pos);
    }

    /** What the pool makes of the answer of the query at a position, which is in a new state. */
    method Act(qry: Query, state: Output, now: Time, ghost v: Pool, ghost pos: nat) returns (out: Option<PoolOutput>)
      requires Indexed() && AllValid(queries) && pos < |queries| && qry == queries[pos]
      requires v.self == self && v.cfg == cfg && |v.queries| == |queries| && v.queries[pos].id == qry.id
      requires Views(queries) == v.queries[pos := Entry(qry.id, qry.View())]
      modifies this`queries, this`queryIndex, this`queriesInFlight
      ensures Indexed() && AllValid(queries)
      ensures (View(), out) == Outcome(v, pos, old(qry.View()), state, now)
      ensures out == None ==> queries == old(queries) && queriesInFlight == old(queriesInFlight) + 1
    {
      hide IndexOk, AllValid, Query.Valid;
      assert qry.View().stats == qry.stats;
      hide Query.View, Views;
      RemoveUpdated(v.queries, pos, Entry(qry.id, qry.View()));
      hide RemoveAt;
      if state == Finished {
        RemoveListed(qry.id, pos);
        out := Some(QueryFinished(qry.id));
      } else if !state.WaitingMessage? && TimedOutStats(qry.stats, now, cfg.timeout) {
        RemoveListed(qry.id, pos);
        out := Some(QueryTimeout(qry.id));
      } else {
        queriesInFlight := queriesInFlight + 1;
        out := if state.WaitingMessage? then Some(QueryMessage(qry.id, state.node)) else None;
      }
    }

    /** Go over the other queries until one has something to do or the limit is reached. */
    method AdvanceOthers(eventID: QueryID, now: Time) returns (out: PoolOutput)
      requires Valid() && queriesInFlight >= 0
      modifies this, queries
      ensures Valid() && (View(), out) == Others(old(View()), 0, eventID, old(queriesInFlight), now)
    {
      hide Inv;
      hide PoolModel.AdvanceQuery;
      hide Query.Valid;
      hide Query.View;
      hide PoolInv;
      hide IndexOk;
      ghost var v, c := View(), queriesInFlight;
      var qs := queries;
      for j := 0 to |qs|
        invariant Valid() && queries == qs && queriesInFlight >= 0
        invariant Others(View(), j, eventID, queriesInFlight, now) == Others(v, 0, eventID, c, now)
      {
        PoolProofs.OthersUnfold(View(), j, eventID, queriesInFlight, now);
        hide Others;
        if qs[j].id != eventID {
          var o := AdvanceQuery(qs[j], NoEvent, now, j);
          if o.Some? {
            return o.value;
          }
          if queriesInFlight >= cfg.concurrency {
            return AtCapacity;
          }
        }
      }
      return if queriesInFlight > 0 then WithCapacity else Idle;
    }

    /** An event for a query of the pool: that query first, then the others. */
    method AdvanceNamed(id: QueryID, qev: Event, now: Time, ghost e: nat) returns (out: PoolOutput)
      requires Valid() && queriesInFlight == 0 && id in queryIndex
      requires e == IndexOf(View().queries, id) && e < |queries| && EventFits(View().queries[e].q, qev)
      modifies this, queries
      ensures Valid() && KeysFit(old(View()).queries[e].q)
      ensures var (b, o) := PoolModel.AdvanceQuery(old(View()), e, qev, now);
        && PoolInv(b)
        && (View(), out) == if o.Some? then (b, o.value) else Others(b, 0, id, 1, now)
    {
      hide Inv;
      hide PoolModel.AdvanceQuery;
      hide Query.Valid;
      hide IndexOk;
      hide Others;
      hide Query.View;
      hide KeysFit;
      hide EventFits;
      hide PoolInv;
      IndexedAt(id);
      var qry := queryIndex[id];
      assert Views(queries)[e] == Entry(id, qry.View());
      AdvanceQueryKeeps(View(), e, qev, now);
      var o := AdvanceQuery(qry, qev, now, e);
      if o.Some? {
        return o.value;
      }
      out := AdvanceOthers(id, now);
    }

    /** One event. PoolProofs, PoolBound and PoolWaiting say what this step can and cannot do. */
    method Advance(ev: PoolEvent, now: Time) returns (out: PoolOutput)
      requires Valid() && PoolEventFits(View(), ev)
      modifies this, queries
      ensures Valid() && (View(), out) == PoolAdvance(old(View()), ev, now)
      ensures PoolBound.EventOk(old(View()), ev) && PoolProofs.NamedIds(PoolProofs.NamesOf(old(View()))) ==>
        PoolSteps.StepMeans(old(View()), ev, now, (View(), out))
    {
      hide Query.View, Query.Valid, Views, PoolInv, IndexOk, AllValid;
      hide PoolAdvance, PoolEventFits, PoolSteps.StepMeans, PoolBound.EventOk, PoolProofs.NamedIds;
      StepExplained(ev, now);
      queriesInFlight := 0;
      out := Handle(ev, now);
    }

    /** The event first, then as many queries as the limit allows. */
    method Handle(ev: PoolEvent, now: Time) returns (out: PoolOutput)
      requires Valid() && PoolEventFits(View(), ev) && queriesInFlight == 0
      modifies this, queries
      ensures Valid() && (View(), out) == PoolAdvance(old(View()), ev, now)
    {
      hide Inv;
      hide PoolModel.AdvanceQuery;
      hide Query.Valid;
      hide Query.View;
      hide IndexOk;
      hide Others;
      ghost var v := View();
      AfterAddKeeps(v, ev);
      label Reset:
      if ev.AddQuery? {
        AddQuery(ev.id, ev.target, ev.known);
        ghost var qs := queries;
        assert forall i :: 0 <= i < |qs| ==> qs[i] in old(queries) || !old@Reset(allocated(qs[i]));
      } else if !ev.Poll? {
        IndexedFinds(ev.id);
        if ev.id in queryIndex {
          ghost var e := IndexOf(v.queries, ev.id);
          TargetFits(v, ev, e);
          out := AdvanceNamed(ev.id, Target(ev).1, now, e);
          return;
        }
      }
      hide PoolInv;
      ghost var qs := queries;
      assert forall i :: 0 <= i < |qs| ==> qs[i] in old(queries) || !old(allocated(qs[i]));
      if queries == [] {
        return Idle;
      }
      out := AdvanceOthers("", now);
    }

    lemma StepExplained(ev: PoolEvent, now: Time)
      requires PoolInv(View()) && PoolEventFits(View(), ev)
      ensures PoolBound.EventOk(View(), ev) && PoolProofs.NamedIds(PoolProofs.NamesOf(View())) ==>
        PoolSteps.StepMeans(View(), ev, now, PoolAdvance(View(), ev, now))
    {
      hide *;
      if PoolBound.EventOk(View(), ev) && PoolProofs.NamedIds(PoolProofs.NamesOf(View())) {
        PoolSteps.StepIs(View(), ev, now);
      }
    }

    lemma IndexedAt(id: QueryID)
      requires Indexed() && id in queryIndex
      ensures IndexOf(Views(queries), id) < |queries| && queries[IndexOf(Views(queries), id)] == queryIndex[id]
    {
      IndexedFinds(id);
    }
  }

  lemma IndexFinds(qs: seq<Entry>, id: QueryID)
    ensures IndexOf(qs, id) < |qs| <==> exists i :: 0 <= i < |qs| && qs[i].id == id
  {
  }
}
