/** Progress of a query: what it does before it has messaged anyone, and that every run changes it only
    finitely often. */
module QueryProgress {
  import opened Keys
  import opened Nearest
  import opened Times
  import opened QueryModel
  import opened QueryProofs
  import opened QueryRuns
  import opened QueryTimeouts

  // ---------- before the first message ----------

  /** k is still to be contacted once ev has been taken in. */
  predicate OpenAfter(q: QueryState, ev: Event, k: Key) {
    k in q.nodes && q.nodes[k] == NotContacted && ev != Failure(k)
  }

  lemma UnstartedEvent(q: QueryState, ev: Event)
    requires Inv(q) && q.messaged == [] && ev != Cancel
    ensures OnEvent(q, ev).nodes.Keys == q.nodes.Keys
    ensures forall k :: k in q.nodes ==>
      OnEvent(q, ev).nodes[k] == if ev == Failure(k) && q.nodes[k] == NotContacted then Failed else q.nodes[k]
    ensures forall k :: k in q.nodes ==> q.nodes[k] == NotContacted || q.nodes[k] == Failed
  {
    assert forall k :: k in q.nodes ==> !WasMessaged(q.nodes[k]);
  }

  lemma {:induction false} NoneSucceeded(nodes: NodeMap, order: seq<Key>, n: nat)
    requires n <= |order| && forall j :: 0 <= j < n ==> order[j] in nodes
    requires forall k :: k in nodes ==> !nodes[k].Succeeded?
    ensures SucceededIn(nodes, order, n) == 0
  {
    if n > 0 {
      NoneSucceeded(nodes, order, n - 1);
    }
  }

  /** Only nodes that have answered count towards the results, and nobody was asked. */
  lemma NotEnough(r: QueryState)
    requires Inv(r) && r.messaged == []
    ensures KeysFit(r) && !EnoughAnswered(r)
  {
    assert forall k :: k in r.nodes ==> !WasMessaged(r.nodes[k]);
    var order := Ranked(r.nodes.Keys, r.target);
    forall n | Settled(r.nodes, order, n)
      ensures SucceededIn(r.nodes, order, n) == 0
    {
      NoneSucceeded(r.nodes, order, n);
    }
  }

  /** A step after which nothing has been messaged yet has ended the query, with no node left open. */
  lemma QuietStep(q: QueryState, ev: Event, r: QueryState, out: Output)
    requires Promised(q, ev, r, out) && r.messaged == [] && !q.finished && ev != Cancel
    ensures out == Finished && forall k :: k in r.nodes ==> r.nodes[k] != NotContacted && !r.nodes[k].Waiting?
  {
    hide After, Nearer;
    NothingMessaged(r);
    NotEnough(r);
  }

  lemma NothingMessaged(r: QueryState)
    requires Inv(r) && r.messaged == []
    ensures r.inFlight == 0 && r.cfg.concurrency >= 1
  {
    assert forall k :: k in r.nodes ==> !WasMessaged(r.nodes[k]);
    assert WaitingSet(r.nodes) == {};
  }

  /** A query that has not messaged anyone sends its first message if a node is left to contact, and else
      it is over. */
  lemma UnstartedQuery(q: QueryState, ev: Event, now: Time)
    requires Inv(q) && EventFits(q, ev) && !q.finished && ev != Cancel && q.messaged == []
    ensures KeysFit(q)
    ensures var out := Advance(q, ev, now).1;
      && (out == Finished || out.WaitingMessage?)
      && (out.WaitingMessage? <==> exists k :: OpenAfter(q, ev, k))
  {
    UnstartedEvent(q, ev);
    AdvancePromises(q, ev, now);
    StepTimesOut(q, ev, now);
    var (r, out) := Advance(q, ev, now);
    hide Advance, OnEvent, Inv, After, EnoughAnswered, KeysFit, OpenAfter, OnlyOverdue;
    if out.WaitingMessage? {
      FirstMessage(q, ev, r, out.node, now);
    } else {
      QuietStep(q, ev, r, out);
      hide Promised;
      forall k | OpenAfter(q, ev, k)
        ensures false
      {
        StaysOpen(q, ev, r, k, now);
      }
    }
  }

  /** The node that is waiting after the step is one that was to be contacted. */
  lemma FirstMessage(q: QueryState, ev: Event, r: QueryState, k: Key, now: Time)
    requires Inv(q) && q.messaged == [] && ev != Cancel && k in r.nodes && r.nodes[k].Waiting?
    requires var e := OnEvent(q, ev).nodes; r.nodes.Keys == e.Keys && OnlyOverdue(e, r.nodes, now, q.cfg.requestTimeout)
    ensures OpenAfter(q, ev, k)
  {
    UnstartedEvent(q, ev);
    hide OnEvent, Inv;
  }

  /** A node to be contacted is not settled by a step that does not contact it. */
  lemma StaysOpen(q: QueryState, ev: Event, r: QueryState, k: Key, now: Time)
    requires Inv(q) && q.messaged == [] && ev != Cancel && OpenAfter(q, ev, k)
    requires var e := OnEvent(q, ev).nodes; r.nodes.Keys == e.Keys && OnlyOverdue(e, r.nodes, now, q.cfg.requestTimeout)
    ensures k in r.nodes && (r.nodes[k].Waiting? || r.nodes[k] == NotContacted)
  {
    UnstartedEvent(q, ev);
    hide OnEvent, Inv;
  }

  // ---------- every run changes the query only finitely often ----------

  /** The nodes that have come at least as far as rank r. */
  ghost function AtLeast(nodes: NodeMap, r: nat): set<Key> {
    set k | k in nodes && Rank(nodes[k]) >= r
  }

  /** How far the nodes have come, all ranks taken together. */
  ghost function Progress(nodes: NodeMap): nat {
    |AtLeast(nodes, 1)| + |AtLeast(nodes, 2)| + |AtLeast(nodes, 3)| + |AtLeast(nodes, 4)|
  }

  lemma ForwardAtLeast(a: NodeMap, b: NodeMap, r: nat)
    requires Forward(a, b)
    ensures AtLeast(a, r) <= AtLeast(b, r)
  {}

  /** Going forward is progress, unless nothing changed. */
  lemma ForwardProgress(a: NodeMap, b: NodeMap)
    requires Forward(a, b)
    ensures Progress(a) <= Progress(b) && (a != b ==> Progress(a) < Progress(b))
  {
    if a != b {
      var k :| k in b && (k !in a || a[k] != b[k]);
      var r := Rank(b[k]);
      assert k in AtLeast(b, r) && k !in AtLeast(a, r);
    }
    forall r: nat
      ensures AtLeast(a, r) <= AtLeast(b, r)
    {
      ForwardAtLeast(a, b, r);
    }
    hide AtLeast;
    SubsetSize(AtLeast(a, 1), AtLeast(b, 1));
    SubsetSize(AtLeast(a, 2), AtLeast(b, 2));
    SubsetSize(AtLeast(a, 3), AtLeast(b, 3));
    SubsetSize(AtLeast(a, 4), AtLeast(b, 4));
  }

  /** There is only so far to go: four ranks for every key but the query's own. */
  lemma ProgressBounded(q: QueryState)
    requires Inv(q)
    ensures Progress(q.nodes) <= 4 * (Pow2(|q.self|) - 1)
  {
    KeyspaceBound(q.nodes.Keys + {q.self}, |q.self|);
    forall r: nat
      ensures |AtLeast(q.nodes, r)| <= |q.nodes.Keys|
    {
      SubsetSize(AtLeast(q.nodes, r), q.nodes.Keys);
    }
  }

  /** In how many steps of a run some node is launched, settled, timed out or found. */
  ghost function Changes(q: QueryState, steps: seq<StepInput>): nat
    requires Inv(q) && StepsFit(q, steps)
    decreases |steps|
  {
    if steps == [] then 0 else
    AdvancePromises(q, steps[0].ev, steps[0].now);
    var next := Advance(q, steps[0].ev, steps[0].now).0;
    StepsFitAfter(q, next, steps);
    (if next.nodes != q.nodes then 1 else 0) + Changes(next, steps[1..])
  }

  /** However long a run is, only so many of its steps change anything about the nodes. */
  lemma {:induction false} ChangesBounded(q: QueryState, steps: seq<StepInput>)
    requires Inv(q) && StepsFit(q, steps)
    ensures Progress(q.nodes) + Changes(q, steps) <= 4 * (Pow2(|q.self|) - 1)
    decreases |steps|
  {
    ProgressBounded(q);
    if steps != [] {
      AdvancePromises(q, steps[0].ev, steps[0].now);
      var next := Advance(q, steps[0].ev, steps[0].now).0;
      StepsFitAfter(q, next, steps);
      hide Advance, Progress, Forward;
      ForwardProgress(q.nodes, next.nodes);
      ChangesBounded(next, steps[1..]);
    }
  }

  /** After any step of a query that is not over, some node has been asked and has not answered. */
  lemma SomebodyIsAsked(q: QueryState, ev: Event, now: Time)
    requires Inv(q) && EventFits(q, ev)
    ensures KeysFit(q)
    ensures var r := Advance(q, ev, now).0;
      !r.finished ==> exists k :: k in r.nodes && r.nodes[k].Waiting?
  {
    AdvancePromises(q, ev, now);
    var (r, out) := Advance(q, ev, now);
    hide Advance, After;
    if out == WaitingAtCapacity || out == WaitingWithCapacity {
      assert WaitingSet(r.nodes) != {};
      var k :| k in WaitingSet(r.nodes);
    }
  }
}
