/** One query, step by step: what an event does to it and what it asks for next.

    Time is a number; an unset time is None. A node is named by its key. The model also records what no
    caller sees: the keys messaged so far, in order, and how many responses came after a timeout. */
module QueryModel {
  import opened Keys
  import opened Nearest
  import opened Options
  import opened Times

  datatype NodeState = NotContacted | Waiting(deadline: Time) | Unresponsive | Failed | Succeeded

  datatype Config = Config(concurrency: nat, numResults: nat, requestTimeout: nat)

  /** Config.Validate: each limit is at least 1. */
  predicate GoodConfig(cfg: Config) {
    cfg.concurrency >= 1 && cfg.numResults >= 1 && cfg.requestTimeout >= 1
  }

  datatype Stats = Stats(start: Option<Time>, end: Option<Time>, requests: int, success: int, failure: int)

  datatype Event = NoEvent | Cancel | Response(node: Key, closer: seq<Key>) | Failure(node: Key)

  datatype Output = Finished | WaitingMessage(node: Key) | WaitingAtCapacity | WaitingWithCapacity

  type NodeMap = map<Key, NodeState>

  datatype QueryState = QueryState(
    self: Key, target: Key, cfg: Config,
    nodes: NodeMap, inFlight: int, stats: Stats, finished: bool,
    messaged: seq<Key>, late: int)

  // ---------- the step ----------

  function AddNode(nodes: NodeMap, self: Key, k: Key): NodeMap {
    if k == self || k in nodes then nodes else nodes[k := NotContacted]
  }

  function AddNodes(nodes: NodeMap, self: Key, ks: seq<Key>): NodeMap {
    if ks == [] then nodes else AddNode(AddNodes(nodes, self, ks[..|ks| - 1]), self, ks[|ks| - 1])
  }

  function NewQuery(self: Key, target: Key, known: seq<Key>, cfg: Config): QueryState {
    QueryState(self, target, cfg, AddNodes(map[], self, known), 0, Stats(None, None, 0, 0, 0), false, [], 0)
  }

  function MarkFinished(q: QueryState, now: Time): QueryState {
    q.(finished := true, stats := q.stats.(end := if q.stats.end == None then Some(now) else q.stats.end))
  }

  function OnResponse(q: QueryState, node: Key, closer: seq<Key>): QueryState {
    if node !in q.nodes then q else
    match q.nodes[node]
    case Waiting(_) =>
      q.(inFlight := q.inFlight - 1, stats := q.stats.(success := q.stats.success + 1),
         nodes := AddNodes(q.nodes, q.self, closer)[node := Succeeded])
    case Unresponsive =>
      q.(stats := q.stats.(success := q.stats.success + 1), late := q.late + 1,
         nodes := AddNodes(q.nodes, q.self, closer)[node := Succeeded])
    case _ => q
  }

  function OnFailure(q: QueryState, node: Key): QueryState {
    if node !in q.nodes then q else
    match q.nodes[node]
    case Waiting(_) =>
      q.(inFlight := q.inFlight - 1, stats := q.stats.(failure := q.stats.failure + 1),
         nodes := q.nodes[node := Failed])
    case Unresponsive => q.(nodes := q.nodes[node := Failed])
    case NotContacted => q.(nodes := q.nodes[node := Failed])
    case _ => q
  }

  function TimeOut(q: QueryState, k: Key): QueryState {
    q.(nodes := q.nodes[k := Unresponsive], inFlight := q.inFlight - 1,
       stats := q.stats.(failure := q.stats.failure + 1))
  }

  function Launch(q: QueryState, k: Key, now: Time): QueryState {
    q.(nodes := q.nodes[k := Waiting(now + q.cfg.requestTimeout)], inFlight := q.inFlight + 1,
       stats := q.stats.(requests := q.stats.requests + 1,
                         start := if q.stats.start == None then Some(now) else q.stats.start),
       messaged := q.messaged + [k])
  }

  /** What the pass makes of one node: the new state, the output if the pass ends here, and the pass's
      two local counters. */
  function Visit(q: QueryState, k: Key, now: Time, successes: nat, progressing: bool)
    : (r: (QueryState, Option<Output>, nat, bool))
    requires k in q.nodes
    ensures r.0.nodes.Keys == q.nodes.Keys
  {
    match q.nodes[k]
    case Waiting(deadline) =>
      if now > deadline then (TimeOut(q, k), None, successes, progressing)
      else if q.inFlight >= q.cfg.concurrency then (q, Some(WaitingAtCapacity), successes, progressing)
      else (q, None, successes, true)
    case Succeeded =>
      if !progressing && successes + 1 >= q.cfg.numResults
      then (MarkFinished(q, now), Some(Finished), successes + 1, progressing)
      else (q, None, successes + 1, progressing)
    case NotContacted =>
      if q.inFlight < q.cfg.concurrency then (Launch(q, k, now), Some(WaitingMessage(k)), successes, progressing)
      else (q, Some(WaitingAtCapacity), successes, progressing)
    case _ => (q, None, successes, progressing)
  }

  /** The pass over the nodes from position i of order on. */
  function Scan(q: QueryState, order: seq<Key>, i: nat, now: Time, successes: nat, progressing: bool)
    : (QueryState, Option<Output>)
    requires i <= |order| && forall j :: 0 <= j < |order| ==> order[j] in q.nodes
    decreases |order| - i
  {
    if i == |order| then (q, None) else
    var (r, out, s, p) := Visit(q, order[i], now, successes, progressing);
    if out.Some? then (r, out) else Scan(r, order, i + 1, now, s, p)
  }

  function OnEvent(q: QueryState, ev: Event): QueryState {
    match ev
    case Response(node, closer) => OnResponse(q, node, closer)
    case Failure(node) => OnFailure(q, node)
    case _ => q
  }

  ghost predicate KeysFit(q: QueryState) {
    |q.self| == |q.target| && SameLength(q.nodes.Keys, q.target)
  }

  /** The events a caller may pass: their keys have the query's key length. */
  predicate EventFits(q: QueryState, ev: Event) {
    match ev
    case Response(node, closer) => |node| == |q.target| && forall i :: 0 <= i < |closer| ==> |closer[i]| == |q.target|
    case Failure(node) => |node| == |q.target|
    case _ => true
  }

  ghost function Advance(q: QueryState, ev: Event, now: Time): (QueryState, Output)
    requires KeysFit(q) && EventFits(q, ev)
  {
    if q.finished then (q, Finished)
    else if ev == Cancel then (MarkFinished(q, now), Finished)
    else
      var e := OnEvent(q, ev);
      OnEventFits(q, ev);
      var (r, out) := Scan(e, Ranked(e.nodes.Keys, e.target), 0, now, 0, false);
      if out.Some? then (r, out.value)
      else if r.inFlight > 0 then (r, WaitingWithCapacity)
      else (MarkFinished(r, now), Finished)
  }

  lemma {:induction false} AddNodesKeys(nodes: NodeMap, self: Key, ks: seq<Key>)
    ensures var r := AddNodes(nodes, self, ks);
      && (forall k :: k in nodes ==> k in r && r[k] == nodes[k])
      && (forall k :: k in r && k !in nodes ==> k in ks && k != self && r[k] == NotContacted)
      && (forall k :: k in ks && k != self ==> k in r)
  {
    if ks != [] {
      AddNodesKeys(nodes, self, ks[..|ks| - 1]);
    }
  }

  lemma OnEventFits(q: QueryState, ev: Event)
    requires KeysFit(q) && EventFits(q, ev)
    ensures KeysFit(OnEvent(q, ev)) && OnEvent(q, ev).target == q.target && OnEvent(q, ev).self == q.self
  {
    if ev.Response? {
      AddNodesKeys(q.nodes, q.self, ev.closer);
    }
  }
}
