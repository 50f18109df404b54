/** A step of a query in closed form: what the event changes, where the pass over the nodes ends, and what it has
    changed by then, all in terms of the state before. */
module QueryPass {
  import opened Keys
  import opened Nearest
  import opened Options
  import opened Times
  import opened QueryModel
  import opened QueryProofs
  import opened QueryRuns

  // ---------- the event ----------

  /** e is what q becomes when told ev. A node that was asked and answers has succeeded, and the nodes it names are
      known; a node that fails has failed, unless it is settled; either way its request is no longer out. */
  ghost predicate Told(q: QueryState, ev: Event, e: QueryState) {
    match ev
    case Response(node, closer) =>
      if node in q.nodes && (q.nodes[node].Waiting? || q.nodes[node].Unresponsive?) then (
        && e == q.(nodes := e.nodes, inFlight := q.inFlight - (if q.nodes[node].Waiting? then 1 else 0),
                   stats := q.stats.(success := q.stats.success + 1),
                   late := q.late + if q.nodes[node].Unresponsive? then 1 else 0)
        && e.nodes.Keys == q.nodes.Keys + ((set k | k in closer) - {q.self})
        && forall k :: k in e.nodes ==>
          e.nodes[k] == if k == node then Succeeded else if k in q.nodes then q.nodes[k] else NotContacted)
      else e == q
    case Failure(node) =>
      if node !in q.nodes || q.nodes[node].Succeeded? || q.nodes[node].Failed? then e == q
      else if !q.nodes[node].Waiting? then e == q.(nodes := q.nodes[node := Failed])
      else e == q.(nodes := q.nodes[node := Failed], inFlight := q.inFlight - 1,
                   stats := q.stats.(failure := q.stats.failure + 1))
    case _ => e == q
  }

  lemma EventTold(q: QueryState, ev: Event)
    ensures Told(q, ev, OnEvent(q, ev))
  {
    if ev.Response? {
      ResponseLearns(q, ev.node, ev.closer);
      hide AddNodes;
    }
  }

  // ---------- the pass ----------

  predicate Overdue(st: NodeState, now: Time) {
    st.Waiting? && now > st.deadline
  }

  /** The order lists nodes of the query, none twice. */
  ghost predicate Orders(q: QueryState, order: seq<Key>) {
    Distinct(order) && forall j :: 0 <= j < |order| ==> order[j] in q.nodes
  }

  /** How many of the first i nodes are overdue. */
  ghost function OverdueIn(q: QueryState, order: seq<Key>, i: nat, now: Time): nat
    requires Orders(q, order) && i <= |order|
  {
    if i == 0 then 0 else OverdueIn(q, order, i - 1, now) + if Overdue(q.nodes[order[i - 1]], now) then 1 else 0
  }

  /** Once the first i nodes have been looked at, another request may go out. */
  ghost predicate RoomAt(q: QueryState, order: seq<Key>, i: nat, now: Time)
    requires Orders(q, order) && i <= |order|
  {
    q.inFlight - OverdueIn(q, order, i, now) < q.cfg.concurrency
  }

  /** None of the first i nodes is waited for in time. */
  ghost predicate NobodyBefore(q: QueryState, order: seq<Key>, i: nat, now: Time)
    requires Orders(q, order) && i <= |order|
  {
    forall j :: 0 <= j < i && q.nodes[order[j]].Waiting? ==> Overdue(q.nodes[order[j]], now)
  }

  /** The output if the pass ends at position i: at an uncontacted node, at one waited for when there is no room, or
      at the success that makes enough when nobody nearer is waited for. */
  ghost function Ending(q: QueryState, order: seq<Key>, i: nat, now: Time): Option<Output>
    requires Orders(q, order) && i < |order|
  {
    match q.nodes[order[i]]
    case NotContacted => Some(if RoomAt(q, order, i, now) then WaitingMessage(order[i]) else WaitingAtCapacity)
    case Waiting(deadline) => if now <= deadline && !RoomAt(q, order, i, now) then Some(WaitingAtCapacity) else None
    case Succeeded =>
      if NobodyBefore(q, order, i, now) && SucceededIn(q.nodes, order, i + 1) >= q.cfg.numResults then Some(Finished)
      else None
    case _ => None
  }

  /** The pass ends at position i, or goes through if that is the end of the order. */
  ghost predicate EndsAt(q: QueryState, order: seq<Key>, i: nat, now: Time)
    requires Orders(q, order)
  {
    && i <= |order| && (i < |order| ==> Ending(q, order, i, now).Some?)
    && forall j :: 0 <= j < i ==> Ending(q, order, j, now) == None
  }

  /** What q has become when the pass has looked at the first i nodes and given that output, if any. */
  ghost function Left(q: QueryState, order: seq<Key>, i: nat, now: Time, out: Option<Output>): QueryState
    requires Orders(q, order) && i <= |order|
  {
    var overdue, asks := OverdueIn(q, order, i, now), out.Some? && out.value.WaitingMessage?;
    var ends := out == Some(Finished);
    q.(nodes := NodesLeft(q, order, i, now, out),
       inFlight := q.inFlight - overdue + (if asks then 1 else 0),
       stats := Stats(if asks && q.stats.start == None then Some(now) else q.stats.start,
                      if ends && q.stats.end == None then Some(now) else q.stats.end,
                      q.stats.requests + (if asks then 1 else 0), q.stats.success, q.stats.failure + overdue),
       finished := q.finished || ends,
       messaged := if asks then q.messaged + [out.value.node] else q.messaged)
  }

  /** Of the first i nodes those overdue are given up; a node that is asked has the full time to answer. */
  ghost function NodesLeft(q: QueryState, order: seq<Key>, i: nat, now: Time, out: Option<Output>): NodeMap
    requires Orders(q, order) && i <= |order|
  {
    map k | k in q.nodes ::
      if out == Some(WaitingMessage(k)) then Waiting(now + q.cfg.requestTimeout)
      else if k in order[..i] && Overdue(q.nodes[k], now) then Unresponsive
      else q.nodes[k]
  }

  lemma NothingLooked(q: QueryState, order: seq<Key>, now: Time)
    requires Orders(q, order)
    ensures Left(q, order, 0, now, None) == q
  {
    assert NodesLeft(q, order, 0, now, None) == q.nodes;
  }

  /** The nodes from position i on are still as they were. */
  lemma LaterUnchanged(q: QueryState, order: seq<Key>, i: nat, now: Time)
    requires Orders(q, order) && i < |order|
    ensures var l := Left(q, order, i, now, None);
      l.nodes.Keys == q.nodes.Keys && l.nodes[order[i]] == q.nodes[order[i]]
  {
    assert forall j :: 0 <= j < i ==> order[..i][j] == order[j];
  }

  lemma OneFurther(q: QueryState, order: seq<Key>, i: nat, now: Time)
    requires Orders(q, order) && i < |order|
    ensures NodesLeft(q, order, i + 1, now, None) ==
      if Overdue(q.nodes[order[i]], now) then NodesLeft(q, order, i, now, None)[order[i] := Unresponsive]
      else NodesLeft(q, order, i, now, None)
  {
    assert order[..i + 1] == order[..i] + [order[i]];
  }

  /** An output changes no more than the node asked. */
  lemma NodesAfter(q: QueryState, order: seq<Key>, i: nat, now: Time, out: Option<Output>)
    requires Orders(q, order) && i < |order|
    ensures NodesLeft(q, order, i, now, out) ==
      if out == Some(WaitingMessage(order[i]))
      then NodesLeft(q, order, i, now, None)[order[i] := Waiting(now + q.cfg.requestTimeout)]
      else if out.Some? && out.value.WaitingMessage? then NodesLeft(q, order, i, now, out)
      else NodesLeft(q, order, i, now, None)
  {}

  /** A node at which the pass goes on. */
  lemma VisitGoesOn(q: QueryState, order: seq<Key>, i: nat, now: Time)
    requires Orders(q, order) && i < |order| && Ending(q, order, i, now) == None
    ensures var l := Left(q, order, i, now, None);
      && order[i] in l.nodes
      && Visit(l, order[i], now, SucceededIn(q.nodes, order, i), !NobodyBefore(q, order, i, now)) ==
        (Left(q, order, i + 1, now, None), None,
         SucceededIn(q.nodes, order, i + 1), !NobodyBefore(q, order, i + 1, now))
  {
    LaterUnchanged(q, order, i, now);
    OneFurther(q, order, i, now);
    hide NodesLeft;
    assert NobodyBefore(q, order, i + 1, now) <==>
      NobodyBefore(q, order, i, now) && (q.nodes[order[i]].Waiting? ==> Overdue(q.nodes[order[i]], now));
    hide Orders, NobodyBefore;
  }

  /** What an output adds to what the pass has done before. */
  lemma LeftWaiting(q: QueryState, order: seq<Key>, i: nat, now: Time)
    requires Orders(q, order) && i < |order|
    ensures var l := Left(q, order, i, now, None);
      && l.cfg == q.cfg && l.inFlight == q.inFlight - OverdueIn(q, order, i, now)
      && Left(q, order, i, now, Some(WaitingAtCapacity)) == l
      && Left(q, order, i, now, Some(Finished)) == MarkFinished(l, now)
  {
    NodesAfter(q, order, i, now, Some(WaitingAtCapacity));
    NodesAfter(q, order, i, now, Some(Finished));
    hide NodesLeft, OverdueIn;
  }

  lemma LeftAsking(q: QueryState, order: seq<Key>, i: nat, now: Time)
    requires Orders(q, order) && i < |order|
    ensures var l := Left(q, order, i, now, None);
      Left(q, order, i, now, Some(WaitingMessage(order[i]))) == Launch(l, order[i], now)
  {
    NodesAfter(q, order, i, now, Some(WaitingMessage(order[i])));
    hide NodesLeft, OverdueIn;
  }

  /** The node at which the pass ends. */
  lemma VisitEnds(q: QueryState, order: seq<Key>, i: nat, now: Time)
    requires Orders(q, order) && i < |order| && Ending(q, order, i, now).Some?
    ensures var l, out := Left(q, order, i, now, None), Ending(q, order, i, now);
      && order[i] in l.nodes
      && var v := Visit(l, order[i], now, SucceededIn(q.nodes, order, i), !NobodyBefore(q, order, i, now));
      && (v.0, v.1) == (Left(q, order, i, now, out), out)
  {
    LaterUnchanged(q, order, i, now);
    LeftWaiting(q, order, i, now);
    LeftAsking(q, order, i, now);
    hide Left, Orders, NobodyBefore, Overdue, OverdueIn, Launch, MarkFinished, TimeOut;
  }

  /** The pass, from any node that it gets to, ends where it ends. */
  lemma {:induction false} ScanFrom(q: QueryState, order: seq<Key>, i: nat, n: nat, now: Time)
    requires Orders(q, order) && i <= n && EndsAt(q, order, n, now) && q.cfg.numResults > 0
    ensures var l, out := Left(q, order, i, now, None), if n < |order| then Ending(q, order, n, now) else None;
      && l.nodes.Keys == q.nodes.Keys
      && Scan(l, order, i, now, SucceededIn(q.nodes, order, i), !NobodyBefore(q, order, i, now)) ==
        (Left(q, order, n, now, out), out)
    decreases n - i
  {
    hide SucceededIn, NobodyBefore, Visit, Ending;
    if i < |order| {
      if i < n {
        VisitGoesOn(q, order, i, now);
        ScanFrom(q, order, i + 1, n, now);
      } else {
        VisitEnds(q, order, i, now);
      }
    }
    hide Left;
  }

  /** The pass ends at the first position that ends it. */
  lemma ScanIs(q: QueryState, order: seq<Key>, n: nat, now: Time)
    requires Orders(q, order) && EndsAt(q, order, n, now) && q.cfg.numResults > 0
    ensures var out := if n < |order| then Ending(q, order, n, now) else None;
      Scan(q, order, 0, now, 0, false) == (Left(q, order, n, now, out), out)
  {
    NothingLooked(q, order, now);
    ScanFrom(q, order, 0, n, now);
  }

  lemma {:induction false} EndsSomewhere(q: QueryState, order: seq<Key>, i: nat, now: Time) returns (n: nat)
    requires Orders(q, order) && i <= |order| && forall j :: 0 <= j < i ==> Ending(q, order, j, now) == None
    ensures EndsAt(q, order, n, now)
    decreases |order| - i
  {
    hide Ending, Orders;
    if i < |order| && Ending(q, order, i, now) == None {
      n := EndsSomewhere(q, order, i + 1, now);
    } else {
      n := i;
    }
  }

  // ---------- the step ----------

  /** The state and the output when the pass over e ends at position n. If it goes through, the query waits for those
      still asked, or it is over. */
  ghost function Ended(e: QueryState, order: seq<Key>, n: nat, now: Time): (QueryState, Output)
    requires Orders(e, order) && n <= |order|
  {
    if n < |order| && Ending(e, order, n, now).Some? then
      (Left(e, order, n, now, Ending(e, order, n, now)), Ending(e, order, n, now).value)
    else if Left(e, order, n, now, None).inFlight > 0 then (Left(e, order, n, now, None), WaitingWithCapacity)
    else (Left(e, order, n, now, Some(Finished)), Finished)
  }

  lemma OrderOf(e: QueryState)
    requires KeysFit(e)
    ensures var order := Ranked(e.nodes.Keys, e.target); Orders(e, order) && forall k :: k in e.nodes <==> k in order
  {
    var order := Ranked(e.nodes.Keys, e.target);
    IncreasingDistinct(order, e.target);
    assert forall j :: 0 <= j < |order| ==> order[j] in order;
  }

  /** A query that is over stays as it is, and one that is cancelled is over. Any other takes in the event and goes over
      its nodes, nearest first, to the first position that ends the pass. */
  lemma StepIs(q: QueryState, ev: Event, now: Time) returns (n: nat)
    requires KeysFit(q) && EventFits(q, ev) && q.cfg.numResults > 0
    ensures q.finished ==> Advance(q, ev, now) == (q, Finished)
    ensures !q.finished && ev == Cancel ==>
      var end := if q.stats.end == None then Some(now) else q.stats.end;
      Advance(q, ev, now) == (q.(finished := true, stats := q.stats.(end := end)), Finished)
    ensures !q.finished && ev != Cancel ==>
      var e := OnEvent(q, ev);
      && Told(q, ev, e) && KeysFit(e)
      && var order := Ranked(e.nodes.Keys, e.target);
      && Orders(e, order) && EndsAt(e, order, n, now) && Advance(q, ev, now) == Ended(e, order, n, now)
  {
    n := 0;
    if !q.finished && ev != Cancel {
      OnEventFits(q, ev);
      EventTold(q, ev);
      EventKeeps(q, ev);
      var e := OnEvent(q, ev);
      hide OnEvent, Told, KeysFit, EventFits;
      OrderOf(e);
      var order := Ranked(e.nodes.Keys, e.target);
      n := EndsSomewhere(e, order, 0, now);
      ScanIs(e, order, n, now);
      if n == |order| {
        LeftFinished(e, order, now);
      }
      hide Scan, Left, Ending, Orders, Ranked;
    }
  }

  lemma EventKeeps(q: QueryState, ev: Event)
    ensures OnEvent(q, ev).cfg == q.cfg
  {}

  lemma LeftFinished(q: QueryState, order: seq<Key>, now: Time)
    requires Orders(q, order)
    ensures Left(q, order, |order|, now, Some(Finished)) == MarkFinished(Left(q, order, |order|, now, None), now)
  {
    assert NodesLeft(q, order, |order|, now, Some(Finished)) == NodesLeft(q, order, |order|, now, None);
  }

  // ---------- when a query is over ----------

  /** Of the first n nodes none is to be contacted, and none is waited for in time. */
  ghost predicate DealtWith(q: QueryState, order: seq<Key>, n: nat, now: Time)
    requires Orders(q, order) && n <= |order|
  {
    NobodyBefore(q, order, n, now) && forall j :: 0 <= j < n ==> q.nodes[order[j]] != NotContacted
  }

  /** Once enough have succeeded, there is one whose success makes enough. */
  lemma {:induction false} MakesEnough(q: QueryState, order: seq<Key>, n: nat) returns (i: nat)
    requires Orders(q, order) && n <= |order| && SucceededIn(q.nodes, order, n) >= q.cfg.numResults > 0
    ensures i < n && q.nodes[order[i]].Succeeded? && SucceededIn(q.nodes, order, i + 1) >= q.cfg.numResults
  {
    if q.nodes[order[n - 1]].Succeeded? {
      i := n - 1;
    } else {
      i := MakesEnough(q, order, n - 1);
    }
  }

  /** A pass that gets past a place where enough nodes have succeeded would have ended there. */
  lemma EnoughEnds(q: QueryState, order: seq<Key>, m: nat, n: nat, now: Time)
    requires Orders(q, order) && m <= |order| && DealtWith(q, order, m, now) && EndsAt(q, order, n, now)
    requires SucceededIn(q.nodes, order, m) >= q.cfg.numResults > 0
    ensures n < |order| && Ending(q, order, n, now) == Some(Finished)
  {
    var i := MakesEnough(q, order, m);
    assert Ending(q, order, i, now) == Some(Finished);
  }

  /** Where the pass goes through, a node that is still waited for is one that was waited for in time. */
  lemma StillWaiting(q: QueryState, order: seq<Key>, now: Time, k: Key)
    requires Orders(q, order) && k in order && k in q.nodes && Left(q, order, |order|, now, None).nodes[k].Waiting?
    ensures !NobodyBefore(q, order, |order|, now)
  {
    assert order[..|order|] == order;
    var j :| 0 <= j < |order| && order[j] == k;
  }

  /** A query that is over has dealt with enough nodes. */
  lemma PassFinished(e: QueryState, order: seq<Key>, n: nat, now: Time, r: QueryState) returns (m: nat)
    requires Orders(e, order) && EndsAt(e, order, n, now) && Ended(e, order, n, now) == (r, Finished) && Inv(r)
    ensures m <= |order| && DealtWith(e, order, m, now)
    ensures m == |order| || SucceededIn(e.nodes, order, m) >= e.cfg.numResults
  {
    hide History, KeysFit;
    m := if n < |order| then n + 1 else n;
    forall j | 0 <= j < n
      ensures e.nodes[order[j]] != NotContacted
    {
      assert Ending(e, order, j, now) == None;
    }
    if n == |order| {
      assert WaitingSet(r.nodes) == {};
      forall j | 0 <= j < n && e.nodes[order[j]].Waiting?
        ensures Overdue(e.nodes[order[j]], now)
      {
        assert order[j] !in WaitingSet(r.nodes);
      }
    }
  }

  /** With enough nodes dealt with, the query is over. */
  lemma PassFinishes(e: QueryState, order: seq<Key>, m: nat, n: nat, now: Time, r: QueryState, out: Output)
    requires Orders(e, order) && EndsAt(e, order, n, now) && Ended(e, order, n, now) == (r, out) && Inv(r)
    requires m <= |order| && DealtWith(e, order, m, now) && e.cfg.numResults > 0
    requires m == |order| || SucceededIn(e.nodes, order, m) >= e.cfg.numResults
    requires forall k :: k in e.nodes ==> k in order
    ensures out == Finished
  {
    hide History, KeysFit;
    if SucceededIn(e.nodes, order, m) >= e.cfg.numResults {
      EnoughEnds(e, order, m, n, now);
    } else if n == |order| && out != Finished {
      assert WaitingSet(r.nodes) != {};
      var k :| k in WaitingSet(r.nodes);
      StillWaiting(e, order, now, k);
    }
  }

  /** Exactly when a step ends a query that is not cancelled. Going over the nodes in the order of their distance, with
      none left to contact and none waited for in time, it gets to numResults successes or to the end. */
  lemma FinishedIff(q: QueryState, ev: Event, now: Time)
    requires Inv(q) && EventFits(q, ev) && !q.finished && ev != Cancel
    ensures KeysFit(q)
    ensures var e := OnEvent(q, ev);
      && Told(q, ev, e) && KeysFit(e)
      && var order := Ranked(e.nodes.Keys, e.target);
      && Orders(e, order)
      && (Advance(q, ev, now).1 == Finished <==> exists n ::
            && 0 <= n <= |order| && DealtWith(e, order, n, now)
            && (n == |order| || SucceededIn(e.nodes, order, n) >= q.cfg.numResults))
  {
    InvKeysFit(q);
    var n := StepIs(q, ev, now);
    AdvancePromises(q, ev, now);
    EventKeeps(q, ev);
    var e := OnEvent(q, ev);
    OrderOf(e);
    var order := Ranked(e.nodes.Keys, e.target);
    var (r, out) := Advance(q, ev, now);
    hide Advance, OnEvent, Told, EventFits, Ranked, After;
    if out == Finished {
      var m := PassFinished(e, order, n, now, r);
    }
    forall m | 0 <= m <= |order| && DealtWith(e, order, m, now)
        && (m == |order| || SucceededIn(e.nodes, order, m) >= q.cfg.numResults)
      ensures out == Finished
    {
      PassFinishes(e, order, m, n, now, r, out);
    }
  }
}
