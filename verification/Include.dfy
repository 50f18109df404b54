/** The include machine: candidates wait in a bounded queue for a check before they join the routing table. */
module Includes {
  import opened Keys
  import opened Options
  import opened Times

  datatype NodeInfo = NodeInfo(key: Key, addresses: seq<string>)

  datatype Check = Check(info: NodeInfo, started: Time)

  datatype Event =
    | Poll
    | AddCandidate(info: NodeInfo)
    | MessageResponse(key: Key, closer: nat, added: bool)
    | MessageFailure(key: Key)

  datatype State =
    | Idle
    | WaitingAtCapacity
    | WaitingWithCapacity
    | WaitingFull
    | RoutingUpdated(info: NodeInfo)
    | FindNodeMessage(info: NodeInfo)

  ghost function KeysOf(nodes: seq<NodeInfo>): set<Key> {
    set i | 0 <= i < |nodes| :: nodes[i].key
  }

  ghost predicate UniqueKeys(nodes: seq<NodeInfo>) {
    forall i, j :: 0 <= i < j < |nodes| ==> nodes[i].key != nodes[j].key
  }

  lemma KeysAppend(nodes: seq<NodeInfo>, n: NodeInfo)
    ensures KeysOf(nodes + [n]) == KeysOf(nodes) + {n.key}
  {
    var s := nodes + [n];
    forall k | k in KeysOf(nodes) + {n.key}
      ensures k in KeysOf(s)
    {
      if k == n.key {
        assert s[|nodes|].key == k;
      } else {
        var i :| 0 <= i < |nodes| && nodes[i].key == k;
        assert s[i].key == k;
      }
    }
  }

  lemma KeysTail(nodes: seq<NodeInfo>)
    requires nodes != [] && UniqueKeys(nodes)
    ensures UniqueKeys(nodes[1..]) && KeysOf(nodes[1..]) == KeysOf(nodes) - {nodes[0].key}
  {
    forall k | k in KeysOf(nodes) - {nodes[0].key}
      ensures k in KeysOf(nodes[1..])
    {
      var i :| 0 <= i < |nodes| && nodes[i].key == k;
      assert nodes[1..][i - 1].key == k;
    }
  }

  /** A bounded first-in-first-out queue of nodes with distinct keys. */
  class NodeQueue {
    const capacity: nat
    var nodes: seq<NodeInfo>
    /** The keys of the queued nodes. */
    var keys: set<Key>

    ghost predicate Valid()
      reads this
    {
      |nodes| <= capacity && UniqueKeys(nodes) && keys == KeysOf(nodes)
    }

    constructor (capacity: nat)
      ensures Valid() && this.capacity == capacity && nodes == []
    {
      this.capacity, nodes, keys := capacity, [], {};
    }

    predicate HasCapacity()
      reads this
    {
      |nodes| < capacity
    }

    method Enqueue(n: NodeInfo) returns (added: bool)
      requires Valid()
      modifies this
      ensures Valid() && (added <==> |old(nodes)| < capacity && n.key !in old(keys))
      ensures nodes == if added then old(nodes) + [n] else old(nodes)
      ensures keys == if added then old(keys) + {n.key} else old(keys)
    {
      if |nodes| == capacity || n.key in keys {
        return false;
      }
      KeysAppend(nodes, n);
      nodes, keys := nodes + [n], keys + {n.key};
      added := true;
    }

    method Dequeue() returns (n: Option<NodeInfo>)
      requires Valid()
      modifies this
      ensures Valid() && (n.None? <==> old(nodes) == [])
      ensures n.None? ==> nodes == old(nodes)
      ensures n.Some? ==>
        old(nodes) == [n.value] + nodes && keys == old(keys) - {n.value.key} && n.value.key in old(keys)
    {
      if nodes == [] {
        return None;
      }
      KeysTail(nodes);
      n := Some(nodes[0]);
      nodes, keys := nodes[1..], keys - {nodes[0].key};
    }
  }

  ghost predicate Apart(queued: set<Key>, checked: set<Key>, table: set<Key>) {
    forall k :: !(k in queued && k in checked) && !(k in queued && k in table) && !(k in checked && k in table)
  }

  lemma ApartJoins(queued: set<Key>, checked: set<Key>, table: set<Key>, key: Key)
    requires Apart(queued, checked, table) && key in checked
    ensures Apart(queued, checked - {key}, table + {key})
  {}

  lemma FewerChecks(checks: map<Key, Check>, key: Key)
    ensures |checks - {key}| <= |checks|
  {
    assert (checks - {key}).Keys == checks.Keys - {key};
    assert |(checks - {key}).Keys| <= |checks.Keys|;
  }

  lemma NotChecked(checks: map<Key, Check>, key: Key)
    requires key !in checks
    ensures checks - {key} == checks
  {}

  lemma QueueFacts(q: NodeQueue)
    requires q.Valid()
    ensures |q.nodes| <= q.capacity && q.keys == KeysOf(q.nodes)
  {}

  class Include {
    const concurrency: nat
    const candidates: NodeQueue
    var checks: map<Key, Check>
    /** The keys of the routing table. */
    var table: set<Key>

    /** A key is queued, checked, in the table, or unknown here: never two of these. */
    ghost predicate Valid()
      reads this, candidates
    {
      && candidates.Valid() && candidates.capacity > 0 && concurrency > 0
      && |checks| <= concurrency && (forall k :: k in checks ==> checks[k].info.key == k)
      && Apart(candidates.keys, checks.Keys, table)
    }

    constructor (concurrency: nat, capacity: nat, table: set<Key>)
      requires concurrency > 0 && capacity > 0
      ensures Valid() && fresh(candidates) && candidates.nodes == [] && checks == map[] && this.table == table
    {
      this.concurrency, this.table, checks := concurrency, table, map[];
      candidates := new NodeQueue(capacity);
    }

    /** A key leaves the table for reasons of its own. */
    method Leave(k: Key)
      requires Valid()
      modifies this`table
      ensures Valid() && table == old(table) - {k}
    {
      table := table - {k};
    }

    /** The checks that are still out once an event has been taken in. */
    ghost function Remaining(ev: Event): map<Key, Check>
      reads this
    {
      if ev.MessageResponse? || ev.MessageFailure? then checks - {ev.key} else checks
    }

    /** The queue once an event has been taken in. */
    ghost function Queue(ev: Event): seq<NodeInfo>
      reads this, candidates
    {
      if ev.AddCandidate? && ev.info.key !in checks && ev.info.key !in table
        && |candidates.nodes| < candidates.capacity && ev.info.key !in candidates.keys
        then candidates.nodes + [ev.info]
      else candidates.nodes
    }

    /** A new candidate finds the queue full. */
    ghost predicate Crowded(ev: Event)
      reads this, candidates
    {
      && ev.AddCandidate? && ev.info.key !in checks && ev.info.key !in table
      && |candidates.nodes| == candidates.capacity
    }

    /** A checked node joins the table. */
    ghost predicate Confirmed(ev: Event)
      reads this
    {
      ev.MessageResponse? && ev.key in checks && ev.closer > 0 && ev.added
    }

    /** What a step that is not ended by its event reports: whether there is room, and what was checked. */
    ghost predicate Reports(state: State, out: map<Key, Check>, queue: seq<NodeInfo>)
      reads this, candidates
    {
      match state
      case WaitingFull => |out| == concurrency && |queue| == candidates.capacity
      case WaitingAtCapacity => |out| == concurrency && |queue| < candidates.capacity
      case WaitingWithCapacity => 0 < |out| < concurrency && queue == []
      case Idle => |out| == 0 && queue == []
      case FindNodeMessage(info) => |out| < concurrency && queue != [] && info == queue[0] && info.key !in out
      case RoutingUpdated(_) => false
    }

    /** One event. A message is sent only to a node that has no check out, the longest queued one. */
    method Advance(ev: Event, now: Time) returns (state: State)
      requires Valid()
      modifies this, candidates
      ensures Valid()
      ensures state.RoutingUpdated? <==> old(Confirmed(ev))
      ensures old(Confirmed(ev)) ==> state == RoutingUpdated(old(checks)[ev.key].info)
      ensures table == if old(Confirmed(ev)) then old(table) + {ev.key} else old(table)
      ensures old(Crowded(ev)) ==> state == WaitingFull
      ensures old(Confirmed(ev)) || old(Crowded(ev)) || Reports(state, old(Remaining(ev)), old(Queue(ev)))
      ensures state.FindNodeMessage? ==> checks == old(Remaining(ev))[state.info.key := Check(state.info, now)]
      ensures !state.FindNodeMessage? ==> checks == old(Remaining(ev))
      ensures candidates.nodes == if state.FindNodeMessage? then old(Queue(ev))[1..] else old(Queue(ev))
    {
      hide Valid, Reports, Queue, Remaining;
      var ended := TakeIn(ev);
      if ended.Some? {
        state := ended.value;
      } else {
        state := NextCheck(now);
      }
    }

    /** Take in an event; the result is the state if the event ends the step. */
    method TakeIn(ev: Event) returns (state: Option<State>)
      requires Valid()
      modifies this, candidates
      ensures Valid()
      ensures state == if old(Confirmed(ev)) then Some(RoutingUpdated(old(checks)[ev.key].info))
        else if old(Crowded(ev)) then Some(WaitingFull) else None
      ensures table == if old(Confirmed(ev)) then old(table) + {ev.key} else old(table)
      ensures checks == old(Remaining(ev)) && candidates.nodes == old(Queue(ev))
    {
      hide NodeQueue.Valid, Apart;
      state := None;
      QueueFacts(candidates);
      match ev {
        case AddCandidate(info) =>
          if info.key !in checks && info.key !in table {
            if !candidates.HasCapacity() {
              return Some(WaitingFull);
            }
            Join(info);
          }
        case MessageResponse(key, closer, added) =>
          if key in checks {
            var ch := checks[key];
            EndCheck(key);
            if closer > 0 && added {
              assert Apart(candidates.keys, checks.Keys, table + {key}) by {
                ApartJoins(candidates.keys, old(checks.Keys), table, key);
              }
              table := table + {key};
              return Some(RoutingUpdated(ch.info));
            }
          } else {
            NotChecked(checks, key);
          }
        case MessageFailure(key) =>
          EndCheck(key);
        case Poll =>
      }
    }

    method Join(info: NodeInfo)
      requires Valid() && info.key !in checks && info.key !in table
      modifies candidates
      ensures Valid()
      ensures candidates.nodes ==
        if |old(candidates.nodes)| < candidates.capacity && info.key !in old(candidates.keys)
        then old(candidates.nodes) + [info] else old(candidates.nodes)
    {
      hide NodeQueue.Valid;
      var _ := candidates.Enqueue(info);
    }

    method EndCheck(key: Key)
      requires Valid()
      modifies this`checks
      ensures Valid() && checks == old(checks) - {key}
    {
      hide NodeQueue.Valid;
      FewerChecks(checks, key);
      checks := checks - {key};
    }

    method NextCheck(now: Time) returns (state: State)
      requires Valid()
      modifies this, candidates
      ensures Valid() && table == old(table) && Reports(state, old(checks), old(candidates.nodes))
      ensures !state.RoutingUpdated?
      ensures state.FindNodeMessage? ==> checks == old(checks)[state.info.key := Check(state.info, now)]
      ensures !state.FindNodeMessage? ==> checks == old(checks)
      ensures candidates.nodes == if state.FindNodeMessage? then old(candidates.nodes)[1..] else old(candidates.nodes)
    {
      hide NodeQueue.Valid;
      QueueFacts(candidates);
      if |checks| == concurrency {
        return if candidates.HasCapacity() then WaitingAtCapacity else WaitingFull;
      }
      var candidate := candidates.Dequeue();
      if candidate.None? {
        return if |checks| > 0 then WaitingWithCapacity else Idle;
      }
      checks := checks[candidate.value.key := Check(candidate.value, now)];
      state := FindNodeMessage(candidate.value);
    }
  }
}
