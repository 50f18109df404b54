/** The query as the program runs it: counters updated in place while one pass goes over the nodes in
    the order the trie search lists them. */
module Queries {
  import opened Keys
  import opened Nearest
  import opened Options
  import opened Times
  import opened Tries
  import opened TrieShape
  import opened TrieSearch
  import opened QueryModel
  import opened QueryProofs
  import QueryRuns

  /** Listing all of a trie's entries towards target ranks its keys. */
  lemma EachIsRanked(t: Trie<Key>, target: Key)
    requires Rooted(t, |target|)
    ensures Height(t) <= |target| && SameLength(Contents(t).Keys, target)
    ensures EntryKeys(ClosestAt(t, target, Size(t), 0)) == Ranked(Contents(t).Keys, target)
  {
    HeightBound(t, [], |target|);
    ContentsOnPath(t, [], |target|);
    SizeCounts(t, [], |target|);
    if Size(t) >= 1 {
      ClosestAnswers(t, [], target, Size(t));
    } else if t.Node? {
      NodeHoldsTwo(t, [], |target|);
    }
  }

  class Query {
    const id: string
    const self: Key
    const target: Key
    const cfg: Config
    /** The iterator's trie of known nodes; its entry for a node points to the node's state, kept in state. */
    var nodes: Trie<Key>
    var state: NodeMap
    var inFlight: int
    var stats: Stats
    var finished: bool
    ghost var messaged: seq<Key>
    ghost var late: int

    ghost function View(): QueryState
      reads this
    {
      QueryState(self, target, cfg, state, inFlight, stats, finished, messaged, late)
    }

    ghost predicate Consistent()
      reads this
    {
      |self| == |target| && Rooted(nodes, |target|) && Contents(nodes).Keys == state.Keys
    }

    ghost predicate Valid()
      reads this
    {
      Consistent() && Inv(View())
    }

    constructor (self: Key, id: string, target: Key, known: seq<Key>, cfg: Config)
      requires GoodConfig(cfg) && |self| == |target| && forall i :: 0 <= i < |known| ==> |known[i]| == |target|
      ensures Valid() && this.id == id && View() == NewQuery(self, target, known, cfg)
    {
      this.id, this.self, this.target, this.cfg := id, self, target, cfg;
      nodes, state := Empty, map[];
      inFlight, stats, finished := 0, Stats(None, None, 0, 0, 0), false;
      messaged, late := [], 0;
      new;
      AddAll(known);
      NewQueryInv(self, target, known, cfg);
    }

    /** Iterator Add: insert if absent. */
    method Add(k: Key)
      requires Consistent() && |k| == |target|
      modifies this`nodes, this`state
      ensures Consistent() && state == if k in old(state) then old(state) else old(state)[k := NotContacted]
    {
      assert k[..0] == [];
      AddInserts(nodes, 0, k, k);
      nodes := AddAt(nodes, 0, k, k);
      if k !in state {
        state := state[k := NotContacted];
      }
    }

    /** Iterator Find. */
    method Find(k: Key) returns (found: bool)
      requires Consistent() && |k| == |target|
      ensures found <==> k in state
    {
      assert k[..0] == [];
      FindLooksUp(nodes, 0, k);
      found := FindAt(nodes, 0, k).0.Some?;
    }

    /** Add nodes to contact, leaving out self. */
    method AddAll(ks: seq<Key>)
      requires Consistent() && forall i :: 0 <= i < |ks| ==> |ks[i]| == |target|
      modifies this`nodes, this`state
      ensures Consistent() && state == AddNodes(old(state), self, ks)
    {
      for i := 0 to |ks|
        invariant Consistent() && state == AddNodes(old(state), self, ks[..i])
      {
        assert ks[..i + 1][..i] == ks[..i];
        if ks[i] != self {
          Add(ks[i]);
        }
      }
      assert ks[..|ks|] == ks;
    }

    method Finish(now: Time)
      modifies this`finished, this`stats
      ensures View() == MarkFinished(old(View()), now)
    {
      finished := true;
      if stats.end == None {
        stats := stats.(end := Some(now));
      }
    }

    /** A response: its sender has succeeded, if it was asked and is not settled, and the nodes it names are
        known. Any other response changes nothing. */
    method HandleResponse(node: Key, closer: seq<Key>)
      requires Consistent() && |node| == |target| && forall i :: 0 <= i < |closer| ==> |closer[i]| == |target|
      modifies this`nodes, this`state, this`inFlight, this`stats, this`late
      ensures Consistent() && View() == OnResponse(old(View()), node, closer)
      ensures var waited := node in old(state) && old(state)[node].Waiting?;
        var tardy := node in old(state) && old(state)[node].Unresponsive?;
        && inFlight == old(inFlight) - (if waited then 1 else 0)
        && stats == old(stats).(success := old(stats).success + if waited || tardy then 1 else 0)
        && late == old(late) + (if tardy then 1 else 0)
        && state.Keys == old(state).Keys + (if waited || tardy then (set k | k in closer) - {self} else {})
        && forall k :: k in state ==>
          state[k] == if k == node && (waited || tardy) then Succeeded else if k in old(state) then old(state)[k]
            else NotContacted
    {
      ResponseLearns(View(), node, closer);
      hide AddNodes;
      var found := Find(node);
      if !found {
        return;
      }
      match state[node] {
        case Waiting(_) =>
          inFlight := inFlight - 1;
          stats := stats.(success := stats.success + 1);
        case Unresponsive =>
          stats := stats.(success := stats.success + 1);
          late := late + 1;
        case _ => return;
      }
      Succeed(node, closer);
    }

    /** The nodes a response names are known from now on, and its sender has succeeded. */
    method Succeed(node: Key, closer: seq<Key>)
      requires Consistent() && node in state && forall i :: 0 <= i < |closer| ==> |closer[i]| == |target|
      modifies this`nodes, this`state
      ensures Consistent() && state == AddNodes(old(state), self, closer)[node := Succeeded]
    {
      AddNodesKeys(state, self, closer);
      AddAll(closer);
      state := state[node := Succeeded];
    }

    /** A failure: the node has failed, unless it is settled already, which ends its request if one is out. A failure
        of an unknown or settled node changes nothing. */
    method HandleFailure(node: Key)
      requires Consistent() && |node| == |target|
      modifies this`state, this`inFlight, this`stats
      ensures Consistent() && View() == OnFailure(old(View()), node)
      ensures var waited := node in old(state) && old(state)[node].Waiting?;
        && inFlight == old(inFlight) - (if waited then 1 else 0)
        && stats == old(stats).(failure := old(stats).failure + if waited then 1 else 0)
      ensures state.Keys == old(state).Keys
      ensures forall k :: k in state ==>
        state[k] == if k == node && !old(state)[k].Failed? && !old(state)[k].Succeeded? then Failed else old(state)[k]
    {
      var found := Find(node);
      if !found {
        return;
      }
      match state[node] {
        case Waiting(_) =>
          inFlight := inFlight - 1;
          stats := stats.(failure := stats.failure + 1);
        case Unresponsive =>
        case NotContacted =>
        case _ => return;
      }
      state := state[node := Failed];
    }

    /** Process an event and say what the query needs next. Everything QueryRuns proves about the model's
        step therefore holds of this method. */
    method Advance(ev: Event, now: Time) returns (out: Output)
      requires Valid() && EventFits(View(), ev)
      modifies this
      ensures Valid() && KeysFit(old(View())) && (View(), out) == QueryModel.Advance(old(View()), ev, now)
      ensures QueryRuns.Promised(old(View()), ev, View(), out)
    {
      hide QueryRuns.Promised;
      hide Inv;
      hide Scan;
      ghost var q := View();
      QueryRuns.AdvancePromises(q, ev, now);
      QueryRuns.PromisedInv(q, ev, QueryModel.Advance(q, ev, now).0, QueryModel.Advance(q, ev, now).1);
      if finished {
        return Finished;
      }
      match ev {
        case Cancel =>
          Finish(now);
          return Finished;
        case Response(node, closer) => HandleResponse(node, closer);
        case Failure(node) => HandleFailure(node);
        case NoEvent =>
      }
      OnEventFits(q, ev);
      var returnState := Pass(now);
      if returnState.Some? {
        return returnState.value;
      }
      if inFlight > 0 {
        return WaitingWithCapacity;
      }
      Finish(now);
      return Finished;
    }

    /** One pass over all nodes, nearest first, stopping where a decision is made. */
    method Pass(now: Time) returns (returnState: Option<Output>)
      requires Consistent() && KeysFit(View())
      modifies this
      ensures Consistent()
      ensures (View(), returnState) == Scan(old(View()), Ranked(old(state).Keys, target), 0, now, 0, false)
    {
      hide Visit;
      hide IsRanking;
      EachIsRanked(nodes, target);
      ghost var order := Ranked(state.Keys, target);
      ghost var q := View();
      var entries := ClosestAt(nodes, target, Size(nodes), 0);
      RankedIn(state.Keys, target);
      var successes: nat, progressing := 0, false;
      for i := 0 to |entries|
        invariant EntryKeys(entries) == order && Consistent() && state.Keys == q.nodes.Keys
        invariant Scan(View(), order, i, now, successes, progressing) == Scan(q, order, 0, now, 0, false)
      {
        assert entries[i].key == order[i];
        returnState, successes, progressing := VisitNode(entries[i].key, now, successes, progressing);
        if returnState.Some? {
          return;
        }
      }
      return None;
    }

    /** The pass's work on one node. */
    method VisitNode(k: Key, now: Time, successes': nat, progressing': bool)
      returns (returnState: Option<Output>, successes: nat, progressing: bool)
      requires Consistent() && k in state
      modifies this
      ensures Consistent() && nodes == old(nodes)
      ensures (View(), returnState, successes, progressing) == Visit(old(View()), k, now, successes', progressing')
    {
      returnState, successes, progressing := None, successes', progressing';
      match state[k] {
        case Waiting(deadline) =>
          if now > deadline {
            state := state[k := Unresponsive];
            inFlight := inFlight - 1;
            stats := stats.(failure := stats.failure + 1);
          } else if inFlight >= cfg.concurrency {
            returnState := Some(WaitingAtCapacity);
          } else {
            progressing := true;
          }
        case Succeeded =>
          successes := successes + 1;
          if !progressing && successes >= cfg.numResults {
            Finish(now);
            returnState := Some(Finished);
          }
        case NotContacted =>
          if inFlight < cfg.concurrency {
            state := state[k := Waiting(now + cfg.requestTimeout)];
            inFlight := inFlight + 1;
            stats := stats.(requests := stats.requests + 1);
            if stats.start == None {
              stats := stats.(start := Some(now));
            }
            messaged := messaged + [k];
            returnState := Some(WaitingMessage(k));
          } else {
            returnState := Some(WaitingAtCapacity);
          }
        case Unresponsive =>
        case Failed =>
      }
    }
  }

  lemma RankedIn(keys: set<Key>, t: Key)
    requires SameLength(keys, t)
    ensures forall j :: 0 <= j < |Ranked(keys, t)| ==> Ranked(keys, t)[j] in keys
  {
    assert forall j :: 0 <= j < |Ranked(keys, t)| ==> Ranked(keys, t)[j] in Ranked(keys, t);
  }
}
