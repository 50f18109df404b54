/** What every run of a query keeps, and what its outputs mean. */
module QueryProofs {
  import opened Keys
  import opened Nearest
  import opened Options
  import opened Times
  import opened QueryModel

  ghost function WaitingSet(nodes: NodeMap): set<Key> {
    set k | k in nodes && nodes[k].Waiting?
  }

  ghost function SucceededSet(nodes: NodeMap): set<Key> {
    set k | k in nodes && nodes[k].Succeeded?
  }

  /** The counters say what they are named for, and the request budget is kept. */
  ghost predicate Counts(q: QueryState) {
    && q.inFlight == |WaitingSet(q.nodes)|
    && q.inFlight <= q.cfg.concurrency
    && q.stats.success == |SucceededSet(q.nodes)|
    && q.stats.requests == |q.messaged|
    && q.stats.requests + q.late == q.inFlight + q.stats.success + q.stats.failure
  }

  /** Only known nodes are messaged, none twice, and a node waiting for contact has not been. */
  ghost predicate History(nodes: NodeMap, messaged: seq<Key>, start: Option<Time>) {
    && Distinct(messaged)
    && (forall k :: k in messaged ==> k in nodes && nodes[k] != NotContacted)
    && (forall k :: k in nodes && WasMessaged(nodes[k]) ==> k in messaged)
    && (messaged != [] ==> start.Some?)
  }

  predicate WasMessaged(st: NodeState) {
    st.Waiting? || st.Unresponsive? || st.Succeeded?
  }

  ghost predicate Inv(q: QueryState) {
    GoodConfig(q.cfg) && KeysFit(q) && q.self !in q.nodes && Counts(q) && History(q.nodes, q.messaged, q.stats.start)
  }

  // ---------- single node changes ----------

  lemma CountsAfter(nodes: NodeMap, k: Key, st: NodeState)
    requires k in nodes
    ensures |WaitingSet(nodes[k := st])| ==
      |WaitingSet(nodes)| + (if st.Waiting? then 1 else 0) - (if nodes[k].Waiting? then 1 else 0)
    ensures |SucceededSet(nodes[k := st])| ==
      |SucceededSet(nodes)| + (if st.Succeeded? then 1 else 0) - (if nodes[k].Succeeded? then 1 else 0)
  {
    WaitingAfter(nodes, k, st);
    SucceededAfter(nodes, k, st);
    hide WaitingSet, SucceededSet;
    CardAfter(WaitingSet(nodes), k, st.Waiting?);
    CardAfter(SucceededSet(nodes), k, st.Succeeded?);
  }

  lemma WaitingAfter(nodes: NodeMap, k: Key, st: NodeState)
    requires k in nodes
    ensures WaitingSet(nodes[k := st]) == With(WaitingSet(nodes), k, st.Waiting?)
    ensures k in WaitingSet(nodes) <==> nodes[k].Waiting?
  {}

  lemma SucceededAfter(nodes: NodeMap, k: Key, st: NodeState)
    requires k in nodes
    ensures SucceededSet(nodes[k := st]) == With(SucceededSet(nodes), k, st.Succeeded?)
    ensures k in SucceededSet(nodes) <==> nodes[k].Succeeded?
  {}

  ghost function With(s: set<Key>, k: Key, add: bool): set<Key> {
    if add then s + {k} else s - {k}
  }

  lemma CardAfter(s: set<Key>, k: Key, add: bool)
    ensures |With(s, k, add)| == |s| + (if add then 1 else 0) - (if k in s then 1 else 0)
  {
    assert add && k in s ==> s + {k} == s;
    assert !add && k !in s ==> s - {k} == s;
  }

  lemma HistoryAfter(nodes: NodeMap, messaged: seq<Key>, start: Option<Time>, k: Key, st: NodeState)
    requires History(nodes, messaged, start) && k in nodes && st != NotContacted
    requires WasMessaged(st) ==> k in messaged
    ensures History(nodes[k := st], messaged, start)
  {
  }

  lemma HistoryLaunch(nodes: NodeMap, messaged: seq<Key>, start: Option<Time>, now: Time, k: Key, st: NodeState)
    requires History(nodes, messaged, start) && k in nodes && nodes[k] == NotContacted && st.Waiting?
    ensures History(nodes[k := st], messaged + [k], if start == None then Some(now) else start)
  {
    assert forall x :: x in messaged + [k] <==> x in messaged || x == k;
  }

  lemma NewQueryInv(self: Key, target: Key, known: seq<Key>, cfg: Config)
    requires GoodConfig(cfg) && |self| == |target| && forall i :: 0 <= i < |known| ==> |known[i]| == |target|
    ensures Inv(NewQuery(self, target, known, cfg))
    ensures var q := NewQuery(self, target, known, cfg);
      && q.self == self && q.target == target && q.cfg == cfg && !q.finished && q.messaged == [] && q.late == 0
      && q.inFlight == 0 && q.stats == Stats(None, None, 0, 0, 0)
      && q.nodes.Keys == (set k | k in known) - {self} && forall k :: k in q.nodes ==> q.nodes[k] == NotContacted
  {
    AddNodesKeys(map[], self, known);
    var n := AddNodes(map[], self, known);
    assert forall k :: k in n ==> n[k] == NotContacted;
    assert WaitingSet(n) == {} && SucceededSet(n) == {};
  }

  lemma AddNodesInv(q: QueryState, ks: seq<Key>)
    requires Inv(q) && forall i :: 0 <= i < |ks| ==> |ks[i]| == |q.target|
    ensures Inv(q.(nodes := AddNodes(q.nodes, q.self, ks)))
  {
    AddNodesKeys(q.nodes, q.self, ks);
    var r := AddNodes(q.nodes, q.self, ks);
    assert WaitingSet(r) == WaitingSet(q.nodes);
    assert SucceededSet(r) == SucceededSet(q.nodes);
  }

  lemma OnResponseInv(q: QueryState, node: Key, closer: seq<Key>)
    requires Inv(q) && forall i :: 0 <= i < |closer| ==> |closer[i]| == |q.target|
    ensures Inv(OnResponse(q, node, closer))
  {
    if node in q.nodes && (q.nodes[node].Waiting? || q.nodes[node].Unresponsive?) {
      AddNodesInv(q, closer);
      AddNodesKeys(q.nodes, q.self, closer);
      var n := AddNodes(q.nodes, q.self, closer);
      CountsAfter(n, node, Succeeded);
      HistoryAfter(n, q.messaged, q.stats.start, node, Succeeded);
      hide History;
      hide WaitingSet;
      hide SucceededSet;
    }
  }

  /** A response from a node that was asked, even one that came too late: the node has succeeded, the nodes
      it names are known from now on, and no other node changes. Any other response changes nothing. */
  lemma ResponseLearns(q: QueryState, node: Key, closer: seq<Key>)
    ensures var r := OnResponse(q, node, closer);
      var waited, tardy := node in q.nodes && q.nodes[node].Waiting?, node in q.nodes && q.nodes[node].Unresponsive?;
      && r == q.(nodes := r.nodes, inFlight := q.inFlight - (if waited then 1 else 0),
                 stats := q.stats.(success := q.stats.success + if waited || tardy then 1 else 0),
                 late := q.late + if tardy then 1 else 0)
      && r.nodes.Keys == q.nodes.Keys + (if waited || tardy then (set k | k in closer) - {q.self} else {})
      && (forall k :: k in r.nodes ==>
        r.nodes[k] == if k == node && (waited || tardy) then Succeeded else if k in q.nodes then q.nodes[k]
          else NotContacted)
  {
    AddNodesKeys(q.nodes, q.self, closer);
    hide AddNodes;
  }

  lemma OnFailureInv(q: QueryState, node: Key)
    requires Inv(q)
    ensures Inv(OnFailure(q, node))
  {
    hide History;
    hide WaitingSet;
    hide SucceededSet;
    if node in q.nodes && !q.nodes[node].Failed? && !q.nodes[node].Succeeded? {
      CountsAfter(q.nodes, node, Failed);
      HistoryAfter(q.nodes, q.messaged, q.stats.start, node, Failed);
    }
  }

  lemma TimeOutInv(q: QueryState, k: Key)
    requires Inv(q) && k in q.nodes && q.nodes[k].Waiting?
    ensures Inv(TimeOut(q, k))
  {
    CountsAfter(q.nodes, k, Unresponsive);
    HistoryAfter(q.nodes, q.messaged, q.stats.start, k, Unresponsive);
  }

  lemma LaunchInv(q: QueryState, k: Key, now: Time)
    requires Inv(q) && k in q.nodes && q.nodes[k].NotContacted? && q.inFlight < q.cfg.concurrency
    ensures Inv(Launch(q, k, now))
  {
    hide History;
    hide WaitingSet;
    hide SucceededSet;
    var st := Waiting(now + q.cfg.requestTimeout);
    CountsAfter(q.nodes, k, st);
    HistoryLaunch(q.nodes, q.messaged, q.stats.start, now, k, st);
  }

  // ---------- states only move forward ----------

  function Rank(st: NodeState): nat {
    match st
    case NotContacted => 1
    case Waiting(_) => 2
    case Unresponsive => 3
    case Failed => 4
    case Succeeded => 4
  }

  /** From a to b no node is forgotten and no node's state moves back; a settled node keeps its state. */
  ghost predicate Forward(a: NodeMap, b: NodeMap) {
    forall k :: k in a ==>
      k in b && Rank(a[k]) <= Rank(b[k]) && (Rank(a[k]) == Rank(b[k]) ==> a[k] == b[k])
  }

  lemma ForwardTransitive(a: NodeMap, b: NodeMap, c: NodeMap)
    requires Forward(a, b) && Forward(b, c)
    ensures Forward(a, c)
  {
  }

  /** r has everything fixed in common with q, and only went forward. */
  ghost predicate After(q: QueryState, r: QueryState) {
    r.self == q.self && r.target == q.target && r.cfg == q.cfg && Forward(q.nodes, r.nodes)
  }

  lemma InvKeysFit(q: QueryState)
    requires Inv(q)
    ensures KeysFit(q)
  {
  }

  lemma ForwardSet(nodes: NodeMap, k: Key, st: NodeState)
    requires k in nodes && Rank(nodes[k]) < Rank(st)
    ensures Forward(nodes, nodes[k := st])
  {
  }

  lemma OnEventForward(q: QueryState, ev: Event)
    ensures After(q, OnEvent(q, ev))
  {
    hide AddNodes;
    match ev
    case Response(node, closer) =>
      if node in q.nodes && (q.nodes[node].Waiting? || q.nodes[node].Unresponsive?) {
        ForwardResponse(q.nodes, q.self, closer, node);
        hide Forward;
      }
    case Failure(node) =>
    case _ =>
  }

  lemma ForwardResponse(nodes: NodeMap, self: Key, closer: seq<Key>, node: Key)
    requires node in nodes && (nodes[node].Waiting? || nodes[node].Unresponsive?)
    ensures Forward(nodes, AddNodes(nodes, self, closer)[node := Succeeded])
  {
    hide AddNodes;
    var n := AddNodes(nodes, self, closer);
    AddNodesKeys(nodes, self, closer);
  }

  lemma OnEventRight(q: QueryState, ev: Event)
    requires Inv(q) && EventFits(q, ev)
    ensures var e := OnEvent(q, ev);
      Inv(e) && After(q, e) && e.messaged == q.messaged && e.finished == q.finished
  {
    hide Inv;
    hide After;
    OnEventForward(q, ev);
    match ev
    case Response(node, closer) => assert |node| == |q.target|; OnResponseInv(q, node, closer);
    case Failure(node) => OnFailureInv(q, node);
    case _ =>
  }

  // ---------- the pass ----------

  ghost function SucceededIn(nodes: NodeMap, order: seq<Key>, n: nat): nat
    requires n <= |order| && forall j :: 0 <= j < n ==> order[j] in nodes
  {
    if n == 0 then 0 else SucceededIn(nodes, order, n - 1) + if nodes[order[n - 1]].Succeeded? then 1 else 0
  }

  lemma {:induction false} SucceededInSame(a: NodeMap, b: NodeMap, order: seq<Key>, n: nat)
    requires n <= |order| && forall j :: 0 <= j < n ==> order[j] in a && order[j] in b && a[order[j]] == b[order[j]]
    ensures SucceededIn(a, order, n) == SucceededIn(b, order, n)
  {
    if n > 0 {
      SucceededInSame(a, b, order, n - 1);
    }
  }

  /** Among the first n nodes of order, none waits for contact or for an answer. */
  ghost predicate Settled(nodes: NodeMap, order: seq<Key>, n: nat) {
    && n <= |order|
    && forall j :: 0 <= j < n ==>
      order[j] in nodes && nodes[order[j]] != NotContacted && !nodes[order[j]].Waiting?
  }

  ghost predicate Lists(order: seq<Key>, nodes: NodeMap) {
    Distinct(order) && forall k :: k in order <==> k in nodes
  }

  /** What holds when the pass stands at position i. */
  ghost predicate Passed(q: QueryState, order: seq<Key>, i: nat, successes: nat, progressing: bool) {
    && Lists(order, q.nodes) && i <= |order|
    && (forall j :: 0 <= j < i ==> q.nodes[order[j]] != NotContacted)
    && (!progressing ==> Settled(q.nodes, order, i) && successes < q.cfg.numResults)
    && (progressing ==> q.inFlight < q.cfg.concurrency)
    && successes == SucceededIn(q.nodes, order, i)
  }

  /** The first i nodes of order have all been contacted. */
  ghost predicate NoneOpenBefore(nodes: NodeMap, order: seq<Key>, i: nat) {
    i <= |order| && forall j :: 0 <= j < i ==> order[j] in nodes && nodes[order[j]] != NotContacted
  }

  /** What each way of ending the pass means. */
  ghost predicate OutputRight(q: QueryState, r: QueryState, out: Option<Output>, order: seq<Key>) {
    match out
    case None =>
      && (forall k :: k in r.nodes ==> r.nodes[k] != NotContacted)
      && (r.inFlight > 0 ==> r.inFlight < r.cfg.concurrency)
      && r.messaged == q.messaged && r.finished == q.finished
    case Some(WaitingAtCapacity) =>
      r.inFlight == r.cfg.concurrency && r.messaged == q.messaged && r.finished == q.finished
    case Some(WaitingMessage(k)) =>
      && r.messaged == q.messaged + [k] && r.finished == q.finished
      && k in q.nodes && q.nodes[k] == NotContacted && k in r.nodes && r.nodes[k].Waiting?
      && (exists i: nat :: i < |order| && order[i] == k && NoneOpenBefore(r.nodes, order, i))
    case Some(Finished) =>
      && r.finished && r.messaged == q.messaged
      && (exists n :: Settled(r.nodes, order, n) && SucceededIn(r.nodes, order, n) == r.cfg.numResults)
    case Some(WaitingWithCapacity) => false
  }

  lemma PassedSucceeded(q: QueryState, order: seq<Key>, i: nat, successes: nat, progressing: bool)
    requires Passed(q, order, i, successes, progressing) && i < |order| && q.nodes[order[i]].Succeeded?
    requires progressing || successes + 1 < q.cfg.numResults
    ensures Passed(q, order, i + 1, successes + 1, progressing)
  {
  }

  lemma PassedWaiting(q: QueryState, order: seq<Key>, i: nat, successes: nat, progressing: bool)
    requires Passed(q, order, i, successes, progressing) && i < |order| && q.nodes[order[i]].Waiting?
    requires q.inFlight < q.cfg.concurrency
    ensures Passed(q, order, i + 1, successes, true)
  {
  }

  lemma PassedOther(q: QueryState, order: seq<Key>, i: nat, successes: nat, progressing: bool)
    requires Passed(q, order, i, successes, progressing) && i < |order|
    requires q.nodes[order[i]].Unresponsive? || q.nodes[order[i]].Failed?
    ensures Passed(q, order, i + 1, successes, progressing)
  {
  }

  lemma PassedTimeOut(q: QueryState, order: seq<Key>, i: nat, successes: nat, progressing: bool)
    requires Passed(q, order, i, successes, progressing) && i < |order| && q.nodes[order[i]].Waiting?
    ensures Passed(TimeOut(q, order[i]), order, i + 1, successes, progressing)
  {
    var t := TimeOut(q, order[i]);
    SucceededInSame(q.nodes, t.nodes, order, i);
  }

  /** The invariant is kept, nothing moves back, and the output is right. */
  ghost predicate Right(q: QueryState, res: (QueryState, Option<Output>), order: seq<Key>) {
    Inv(res.0) && After(q, res.0) && res.0.nodes.Keys == q.nodes.Keys && OutputRight(q, res.0, res.1, order)
  }

  lemma {:induction false} ScanRight(q: QueryState, order: seq<Key>, i: nat, now: Time, successes: nat,
                                     progressing: bool)
    requires Inv(q) && Passed(q, order, i, successes, progressing)
    ensures i <= |order| && forall j :: 0 <= j < |order| ==> order[j] in q.nodes
    ensures Right(q, Scan(q, order, i, now, successes, progressing), order)
    decreases |order| - i
  {
    hide Inv;
    hide Right;
    hide Passed;
    PassedFacts(q, order, i, successes, progressing);
    if i == |order| {
      ScanEnds(q, order, successes, progressing);
    } else {
      var k := order[i];
      match q.nodes[k] {
        case Waiting(deadline) =>
          if now > deadline {
            TimeOutInv(q, k);
            PassedTimeOut(q, order, i, successes, progressing);
            ScanRight(TimeOut(q, k), order, i + 1, now, successes, progressing);
            RightAfterTimeOut(q, k, Scan(TimeOut(q, k), order, i + 1, now, successes, progressing), order);
          } else if q.inFlight < q.cfg.concurrency {
            PassedWaiting(q, order, i, successes, progressing);
            ScanRight(q, order, i + 1, now, successes, true);
          } else {
            AtCapacityRight(q, order);
          }
        case Succeeded =>
          if !progressing && successes + 1 >= q.cfg.numResults {
            FinishRight(q, order, i, now, successes);
          } else {
            PassedSucceeded(q, order, i, successes, progressing);
            ScanRight(q, order, i + 1, now, successes + 1, progressing);
          }
        case NotContacted =>
          if q.inFlight < q.cfg.concurrency {
            LaunchRight(q, order, i, now, successes, progressing);
          } else {
            AtCapacityRight(q, order);
          }
        case _ =>
          PassedOther(q, order, i, successes, progressing);
          ScanRight(q, order, i + 1, now, successes, progressing);
      }
    }
  }

  lemma PassedFacts(q: QueryState, order: seq<Key>, i: nat, successes: nat, progressing: bool)
    requires Passed(q, order, i, successes, progressing)
    ensures i <= |order| && forall j :: 0 <= j < |order| ==> order[j] in q.nodes
  {
    assert forall j :: 0 <= j < |order| ==> order[j] in order;
  }

  lemma ScanEnds(q: QueryState, order: seq<Key>, successes: nat, progressing: bool)
    requires Inv(q) && Passed(q, order, |order|, successes, progressing)
    ensures Right(q, (q, None), order)
  {
    forall k | k in q.nodes ensures q.nodes[k] != NotContacted {
      assert k in order;
    }
    if q.inFlight > 0 {
      assert WaitingSet(q.nodes) != {};
      var k :| k in WaitingSet(q.nodes);
      assert k in order;
    }
  }

  lemma RightAfterTimeOut(q: QueryState, k: Key, res: (QueryState, Option<Output>), order: seq<Key>)
    requires k in q.nodes && q.nodes[k].Waiting? && Right(TimeOut(q, k), res, order)
    ensures Right(q, res, order)
  {
    ForwardSet(q.nodes, k, Unresponsive);
    ForwardTransitive(q.nodes, TimeOut(q, k).nodes, res.0.nodes);
    hide Forward;
    hide Inv;
  }

  lemma AtCapacityRight(q: QueryState, order: seq<Key>)
    requires Inv(q) && q.inFlight >= q.cfg.concurrency
    ensures Right(q, (q, Some(WaitingAtCapacity)), order)
  {
  }

  lemma FinishRight(q: QueryState, order: seq<Key>, i: nat, now: Time, successes: nat)
    requires Inv(q) && Passed(q, order, i, successes, false)
    requires i < |order| && order[i] in q.nodes && q.nodes[order[i]].Succeeded? && successes + 1 >= q.cfg.numResults
    ensures Right(q, (MarkFinished(q, now), Some(Finished)), order)
  {
    assert Settled(q.nodes, order, i + 1) && SucceededIn(q.nodes, order, i + 1) == q.cfg.numResults;
    hide Settled, SucceededIn, Passed, Lists, Counts, History, KeysFit;
  }

  lemma LaunchOutput(q: QueryState, order: seq<Key>, i: nat, now: Time, successes: nat, progressing: bool)
    requires Passed(q, order, i, successes, progressing)
    requires i < |order| && order[i] in q.nodes && q.nodes[order[i]].NotContacted?
    ensures OutputRight(q, Launch(q, order[i], now), Some(WaitingMessage(order[i])), order)
  {
    var r := Launch(q, order[i], now);
    assert forall j :: 0 <= j < i ==> order[j] in order;
    assert NoneOpenBefore(r.nodes, order, i);
  }

  lemma LaunchRight(q: QueryState, order: seq<Key>, i: nat, now: Time, successes: nat, progressing: bool)
    requires Inv(q) && Passed(q, order, i, successes, progressing) && q.inFlight < q.cfg.concurrency
    requires i < |order| && order[i] in q.nodes && q.nodes[order[i]].NotContacted?
    ensures Right(q, (Launch(q, order[i], now), Some(WaitingMessage(order[i]))), order)
  {
    hide Inv, OutputRight, Passed;
    LaunchInv(q, order[i], now);
    LaunchOutput(q, order, i, now, successes, progressing);
    AfterLaunch(q, order[i], now);
    hide After;
  }

  lemma AfterLaunch(q: QueryState, k: Key, now: Time)
    requires k in q.nodes && q.nodes[k].NotContacted?
    ensures After(q, Launch(q, k, now)) && Launch(q, k, now).nodes.Keys == q.nodes.Keys
  {
    ForwardSet(q.nodes, k, Waiting(now + q.cfg.requestTimeout));
  }
}
