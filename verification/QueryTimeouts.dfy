/** When requests time out. */
module QueryTimeouts {
  import opened Keys
  import opened Nearest
  import opened Options
  import opened Times
  import opened QueryModel

  /** The only changes: waiting nodes whose deadline has passed become unresponsive, and an uncontacted
      node may be given the full time to answer. */
  ghost predicate OnlyOverdue(a: NodeMap, b: NodeMap, now: Time, limit: nat) {
    forall k :: k in a && k in b && b[k] != a[k] ==>
      || (a[k].Waiting? && a[k].deadline < now && b[k] == Unresponsive)
      || (a[k] == NotContacted && b[k] == Waiting(now + limit))
  }

  /** No node from position i of order on is still waiting past its deadline. */
  ghost predicate NoneOverdue(nodes: NodeMap, order: seq<Key>, i: nat, now: Time) {
    forall j :: i <= j < |order| && order[j] in nodes && nodes[order[j]].Waiting? ==> nodes[order[j]].deadline >= now
  }

  /** A pass that ends in a message has given the node the full time to answer. */
  ghost predicate MessageTimed(nodes: NodeMap, out: Option<Output>, now: Time, limit: nat) {
    out.Some? && out.value.WaitingMessage? ==> out.value.node in nodes && nodes[out.value.node] == Waiting(now + limit)
  }

  lemma OnlyOverdueTransitive(a: NodeMap, b: NodeMap, c: NodeMap, now: Time, limit: nat)
    requires a.Keys == b.Keys && OnlyOverdue(a, b, now, limit) && OnlyOverdue(b, c, now, limit)
    requires forall k :: k in a && k in b && a[k] == NotContacted ==> b[k] == NotContacted
    ensures OnlyOverdue(a, c, now, limit)
  {}

  lemma VisitTimesOut(q: QueryState, k: Key, now: Time, successes: nat, progressing: bool)
    requires k in q.nodes
    ensures var v := Visit(q, k, now, successes, progressing);
      && v.0.cfg == q.cfg && OnlyOverdue(q.nodes, v.0.nodes, now, q.cfg.requestTimeout)
      && MessageTimed(v.0.nodes, v.1, now, q.cfg.requestTimeout) && v.1 != Some(WaitingWithCapacity)
      && (v.1 == None ==> forall x :: x in q.nodes && q.nodes[x] == NotContacted ==> v.0.nodes[x] == NotContacted)
      && (v.1 == None && v.0.nodes[k].Waiting? ==> v.0.nodes[k].deadline >= now)
  {}

  /** A node that is not overdue stays so for the rest of the pass. */
  lemma StaysInTime(a: NodeMap, b: NodeMap, order: seq<Key>, i: nat, now: Time, limit: nat)
    requires OnlyOverdue(a, b, now, limit) && i < |order| && order[i] in a && NoneOverdue(b, order, i + 1, now)
    requires a[order[i]].Waiting? ==> a[order[i]].deadline >= now
    ensures NoneOverdue(b, order, i, now)
  {}

  lemma {:induction false} ScanTimesOut(q: QueryState, order: seq<Key>, i: nat, now: Time, successes: nat,
                                        progressing: bool)
    requires i <= |order| && forall j :: 0 <= j < |order| ==> order[j] in q.nodes
    ensures var res := Scan(q, order, i, now, successes, progressing);
      && res.0.nodes.Keys == q.nodes.Keys && OnlyOverdue(q.nodes, res.0.nodes, now, q.cfg.requestTimeout)
      && MessageTimed(res.0.nodes, res.1, now, q.cfg.requestTimeout) && res.1 != Some(WaitingWithCapacity)
      && (res.1 == None ==> NoneOverdue(res.0.nodes, order, i, now))
    decreases |order| - i
  {
    if i < |order| {
      var k, limit := order[i], q.cfg.requestTimeout;
      VisitTimesOut(q, k, now, successes, progressing);
      var v := Visit(q, k, now, successes, progressing);
      hide Visit, MessageTimed;
      if v.1 == None {
        var res := Scan(v.0, order, i + 1, now, v.2, v.3);
        assert Scan(q, order, i, now, successes, progressing) == res;
        hide Scan;
        ScanTimesOut(v.0, order, i + 1, now, v.2, v.3);
        OnlyOverdueTransitive(q.nodes, v.0.nodes, res.0.nodes, now, limit);
        if res.1 == None {
          StaysInTime(v.0.nodes, res.0.nodes, order, i, now, limit);
        }
      }
    }
  }

  /** The pass over all nodes, nearest first. */
  ghost function Pass(e: QueryState, now: Time): (QueryState, Option<Output>)
    requires KeysFit(e)
  {
    Scan(e, Ranked(e.nodes.Keys, e.target), 0, now, 0, false)
  }

  lemma PassTimesOut(e: QueryState, now: Time)
    requires KeysFit(e)
    ensures var r, out := Pass(e, now).0, Pass(e, now).1;
      && r.nodes.Keys == e.nodes.Keys
      && OnlyOverdue(e.nodes, r.nodes, now, e.cfg.requestTimeout)
      && MessageTimed(r.nodes, out, now, e.cfg.requestTimeout)
      && out != Some(WaitingWithCapacity)
      && (out == None ==> forall k :: k in r.nodes && r.nodes[k].Waiting? ==> r.nodes[k].deadline >= now)
  {
    hide Scan, Nearer, OnlyOverdue, MessageTimed;
    var order := Ranked(e.nodes.Keys, e.target);
    assert forall j :: 0 <= j < |order| ==> order[j] in order;
    ScanTimesOut(e, order, 0, now, 0, false);
    if Pass(e, now).1 == None {
      AllInTime(Pass(e, now).0.nodes, order, now);
    }
  }

  lemma EventKeepsConfig(q: QueryState, ev: Event)
    ensures OnEvent(q, ev).cfg == q.cfg
  {
    hide AddNodes;
  }

  /** One step: a request times out only after its deadline, and if the step has looked at every node, all
      that are overdue have timed out; a new request gets the full time. */
  lemma StepTimesOut(q: QueryState, ev: Event, now: Time)
    requires KeysFit(q) && EventFits(q, ev) && !q.finished && ev != Cancel
    ensures var r, out := Advance(q, ev, now).0, Advance(q, ev, now).1;
      && r.nodes.Keys == OnEvent(q, ev).nodes.Keys
      && OnlyOverdue(OnEvent(q, ev).nodes, r.nodes, now, q.cfg.requestTimeout)
      && (out == WaitingWithCapacity ==> forall k :: k in r.nodes && r.nodes[k].Waiting? ==> r.nodes[k].deadline >= now)
      && MessageTimed(r.nodes, Some(out), now, q.cfg.requestTimeout)
  {
    hide KeysFit, EventFits, OnEvent, Scan, OnlyOverdue;
    OnEventFits(q, ev);
    EventKeepsConfig(q, ev);
    PassTimesOut(OnEvent(q, ev), now);
  }

  lemma AllInTime(nodes: NodeMap, order: seq<Key>, now: Time)
    requires NoneOverdue(nodes, order, 0, now) && forall k :: k in nodes ==> k in order
    ensures forall k :: k in nodes && nodes[k].Waiting? ==> nodes[k].deadline >= now
  {}
}
