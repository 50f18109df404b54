/** The simple query: an asynchronous request loop over a peer list. */
module SimpleQueries {
  import opened Keys
  import opened Options
  import opened PeerLists
  import Nearest

  /** A response, with the closer nodes it names. */
  datatype Response = Response(closerNodes: seq<NodeID>)

  /** s without the ids whose key is self. */
  function Without(s: seq<NodeID>, self: Key): (r: seq<NodeID>)
    ensures |r| <= |s|
  {
    if s == [] then [] else
    var t := Without(s[..|s| - 1], self);
    if s[|s| - 1].key == self then t else t + [s[|s| - 1]]
  }

  /** Filtering keeps every other id, and no id with the key. */
  lemma {:induction false} WithoutMembers(s: seq<NodeID>, self: Key, id: NodeID)
    ensures id in Without(s, self) <==> id in s && id.key != self
  {
    if s != [] {
      WithoutMembers(s[..|s| - 1], self, id);
      assert s == s[..|s| - 1] + [s[|s| - 1]];
    }
  }

  function Given(s: seq<NodeID>): (r: seq<Option<NodeID>>)
    ensures |r| == |s| && forall i :: 0 <= i < |s| ==> r[i] == Some(s[i])
  {
    seq(|s|, i requires 0 <= i < |s| => Some(s[i]))
  }

  /** The nodes asked that have not answered. */
  ghost function WaitingIn(spine: seq<NodeInfo>): set<NodeInfo>
    reads spine`status
  {
    set x | x in Elems(spine) && x.status == Waiting
  }

  ghost function Ids(nodes: set<NodeInfo>): set<NodeID> {
    set x | x in nodes :: x.id
  }

  /** Every listed peer has answered, or will not. */
  ghost predicate AllAsked(spine: seq<NodeInfo>)
    reads spine`status
  {
    forall x :: x in Elems(spine) ==> x.status == Queried || x.status == Unreachable
  }

  /** Nodes are told apart by key, and with honest names by name too. */
  lemma NamedNode(target: Key, spine: seq<NodeInfo>, keyNamed: string -> Key, x: NodeInfo)
    requires Sorted(spine) && ForTarget(target, spine) && x in Elems(spine)
    requires forall y :: y in Elems(spine) ==> y.id.key == keyNamed(y.id.name)
    ensures FirstNamed(spine, x.id.name) == x
    ensures forall y :: y in Elems(spine) && y.id == x.id ==> y == x
  {
    hide Value, Sorted, ForTarget;
    SortedKeys(target, spine, x);
    assert forall y :: y in spine ==> y in Elems(spine);
    FirstNamedIs(spine, x);
  }

  /** With nothing queued and nobody waiting, everybody has been asked. */
  lemma NothingLeft(pl: PeerList)
    requires pl.Valid() && pl.queuedCount == 0 && Ids(WaitingIn(pl.spine)) == {}
    ensures AllAsked(pl.spine)
  {
    hide Value, Sorted, ForTarget;
    FirstInIs(pl.spine, QueuedIn(pl.spine));
    forall x | x in Elems(pl.spine)
      ensures x.status != Waiting
    {
      assert x.id !in Ids(WaitingIn(pl.spine));
    }
  }

  lemma IdsAdd(nodes: set<NodeInfo>, x: NodeInfo)
    ensures Ids(nodes + {x}) == Ids(nodes) + {x.id}
  {
    assert nodes + {x} == {x} + nodes;
    assert forall y :: y in nodes ==> y.id in Ids(nodes + {x});
    assert x in nodes + {x} && x.id in Ids(nodes + {x});
  }

  lemma IdsRemove(nodes: set<NodeInfo>, x: NodeInfo)
    requires x in nodes && forall y :: y in nodes && y.id == x.id ==> y == x
    ensures Ids(nodes - {x}) == Ids(nodes) - {x.id}
  {
    assert forall y :: y in nodes && y != x ==> y.id in Ids(nodes - {x});
  }

  /** No queued peer is as near to the target as id is. */
  ghost predicate NearestAsked(pl: PeerList, id: NodeID)
    reads pl, pl.spine`status
  {
    && |id.key| == |pl.target|
    && forall x :: x in Elems(pl.spine) && x.status == Queued ==> Value(Xor(pl.target, id.key)) < Value(x.distance)
  }

  /** Some listed node has that id and status. */
  ghost predicate Listed(pl: PeerList, id: NodeID, status: Status)
    reads pl, pl.spine`status
  {
    exists x :: x in Elems(pl.spine) && x.id == id && x.status == status
  }

  /** The listed nodes with another id, and their states. */
  ghost function Others(pl: PeerList, id: NodeID): map<NodeInfo, Status>
    reads pl, pl.spine`status
  {
    map x | x in Elems(pl.spine) && x.id != id :: x.status
  }

  /** The nodes of a list that were not in it before are queued. */
  ghost predicate NewQueued(pl: PeerList, were: set<NodeInfo>)
    reads pl, pl.spine`status
  {
    forall x :: x in Elems(pl.spine) - were ==> x.status == Queued
  }

  lemma NoneNew(pl: PeerList)
    ensures NewQueued(pl, Elems(pl.spine)) && forall k :: Extends(Others(pl, k), Others(pl, k))
  {}

  /** Whoever is in a is in b, in the same state. */
  ghost predicate Extends(a: map<NodeInfo, Status>, b: map<NodeInfo, Status>) {
    forall x :: x in a ==> x in b && b[x] == a[x]
  }

  ghost predicate AllNamed(ids: seq<NodeID>, keyNamed: string -> Key) {
    forall i :: 0 <= i < |ids| ==> ids[i].key == keyNamed(ids[i].name)
  }

  lemma WithoutNamed(s: seq<NodeID>, self: Key, keyNamed: string -> Key)
    requires AllNamed(s, keyNamed)
    ensures AllNamed(Without(s, self), keyNamed) && forall id :: id in Without(s, self) ==> id in s && id.key != self
  {
    forall id
      ensures id in Without(s, self) <==> id in s && id.key != self
    {
      WithoutMembers(s, self, id);
    }
  }

  lemma GivenNamed(ids: seq<NodeID>, keyNamed: string -> Key)
    requires AllNamed(ids, keyNamed)
    ensures forall id: NodeID :: Some(id) in Given(ids) ==> id.key == keyNamed(id.name)
  {}

  class SimpleQuery {
    const self: Key
    const concurrency: nat
    const peerlist: PeerList
    var done: bool
    /** Whether the query's context has been cancelled. */
    var cancelled: bool
    /** Requests that are out or scheduled. */
    var inflightRequests: int
    /** How often the failure callback was called. */
    var failures: nat
    /** What the routing table was told: peers to add, keys to remove. */
    var tableAdds: seq<NodeID>
    var tableRemoves: seq<Key>
    /** The newRequest actions waiting in the scheduler, and the requests whose handler has not been called. */
    var newRequests: nat
    ghost var outstanding: set<NodeID>
    /** Which key a peer's name stands for. */
    ghost const keyNamed: string -> Key

    ghost predicate Valid()
      reads this, peerlist, peerlist.spine
    {
      && peerlist.Valid() && concurrency > 0 && (forall x :: x in Elems(peerlist.spine) ==> Honest(x.id))
      && failures <= 1 && (failures == 1 ==> done && AllAsked(peerlist.spine))
      && (!done ==> Balanced())
    }

    /** While the query runs, its counter is the requests scheduled and out, within bounds. */
    ghost predicate Balanced()
      reads this, peerlist, peerlist.spine
    {
      && inflightRequests == newRequests + |outstanding| && inflightRequests <= concurrency
      && outstanding == Ids(WaitingIn(peerlist.spine))
    }

    /** Nothing is scheduled and nothing out, but the query is not over: nobody will ever call it back. */
    ghost predicate Hung()
      reads this
    {
      !done && newRequests == 0 && outstanding == {}
    }

    ghost predicate Honest(id: NodeID) {
      id.key == keyNamed(id.name)
    }

    /** Start a query from the table's closest peers; with none there is no query. */
    static method NewSimpleQuery(self: Key, target: Key, concurrency: nat, closestPeers: seq<NodeID>,
                                 ghost keyNamed: string -> Key)
      returns (q: SimpleQuery?)
      requires concurrency > 0 && AllNamed(closestPeers, keyNamed)
      ensures q == null <==> closestPeers == []
      ensures q != null ==> fresh(q) && fresh(q.peerlist) && q.Valid() && q.outstanding == {}
      ensures q != null ==>
        Represented(target, Given(closestPeers), q.peerlist.spine) && (q.failures == 1 <==> q.peerlist.queuedCount == 0)
      ensures q != null ==>
        forall x :: x in Elems(q.peerlist.spine) ==> fresh(x) && x.status == Queued && x.id in closestPeers
      ensures q != null ==> q.peerlist.target == target && q.concurrency == concurrency
      ensures q != null ==> q.self == self && q.keyNamed == keyNamed
      ensures q != null ==> !q.Hung() && !q.cancelled && (q.done <==> q.failures == 1)
      ensures q != null && !q.done ==>
        q.newRequests == if q.peerlist.queuedCount < concurrency then q.peerlist.queuedCount else concurrency
    {
      hide Represented, AllNamed, SimpleQuery.Valid, PeerList.Valid;
      if closestPeers == [] {
        return null;
      }
      var pl := new PeerList(target);
      pl.AddToPeerlist(Given(closestPeers));
      GivenNamed(closestPeers, keyNamed);
      assert Elems(pl.spine) - Elems([]) == Elems(pl.spine);
      q := new SimpleQuery(self, concurrency, pl, keyNamed);
      q.EnqueueNewRequests();
    }

    constructor (self: Key, concurrency: nat, pl: PeerList, ghost keyNamed: string -> Key)
      requires concurrency > 0 && pl.Valid() && forall x :: x in Elems(pl.spine) ==>
        x.status == Queued && x.id.key == keyNamed(x.id.name)
      ensures Valid() && !done && inflightRequests == 0 && failures == 0 && outstanding == {} && peerlist == pl
      ensures !cancelled && newRequests == 0 && this.concurrency == concurrency
      ensures this.self == self && this.keyNamed == keyNamed
    {
      hide PeerList.Valid;
      this.self, this.concurrency, this.keyNamed, peerlist := self, concurrency, keyNamed, pl;
      done, cancelled, inflightRequests, failures, newRequests, outstanding := false, false, 0, 0, 0, {};
      tableAdds, tableRemoves := [], [];
    }

    /** Cancel the query's context. */
    method Cancel()
      requires Valid()
      modifies this`cancelled
      ensures Valid() && cancelled
    {
      cancelled := true;
    }

    /** Whether the query is over; a cancelled query is over from the first time this looks. */
    method CheckIfDone() returns (over: bool)
      modifies this`done
      ensures over == done == (old(done) || cancelled)
    {
      if !done && cancelled {
        done := true;
      }
      over := done;
    }

    /** How many requests are scheduled when inflight of them are scheduled or out already. */
    ghost function ToSend(inflight: int): (n: int)
      reads this, peerlist
      ensures n <= peerlist.queuedCount && n <= concurrency - inflight
      ensures n == peerlist.queuedCount || n == concurrency - inflight
    {
      if peerlist.queuedCount < concurrency - inflight then peerlist.queuedCount else concurrency - inflight
    }

    /** Schedule as many requests as concurrency and the queued peers allow. If there are none, and none
        are out, the query has failed. */
    method EnqueueNewRequests()
      requires Valid() && !done
      modifies this`done, this`failures, this`newRequests, this`inflightRequests
      ensures Valid() && (done <==> failures == 1) && newRequests >= old(newRequests)
      ensures failures == 1 <==> old(inflightRequests) == 0 && peerlist.queuedCount == 0
      ensures !Hung()
      ensures newRequests == old(newRequests) + if done then 0 else ToSend(old(inflightRequests))
    {
      hide AllAsked, WaitingIn, Ids, PeerList.Valid;
      QueuedCountIsNat(peerlist);
      var newRequestsToSend := concurrency - inflightRequests;
      if peerlist.queuedCount < newRequestsToSend {
        newRequestsToSend := peerlist.queuedCount;
      }
      if newRequestsToSend == 0 && inflightRequests == 0 {
        assert outstanding == {};
        NothingLeft(peerlist);
        done := true;
        failures := failures + 1;
        return;
      }
      for i := 0 to newRequestsToSend
        invariant newRequests == old(newRequests) + i && inflightRequests == old(inflightRequests) && !done
        invariant failures == 0
      {
        newRequests := newRequests + 1;
      }
      inflightRequests := inflightRequests + newRequestsToSend;
    }

    /** A scheduled request runs: it asks the nearest peer that has not been asked, unless the query is over.
        sendFails says whether the endpoint refuses the request at once. */
    method NewRequest(sendFails: bool) returns (asked: Option<NodeID>)
      requires Valid() && newRequests > 0
      modifies this, peerlist, peerlist.spine
      ensures Valid()
      ensures outstanding == old(outstanding) + if asked.Some? && !sendFails then {asked.value} else {}
      ensures asked.Some? ==> asked.value !in old(outstanding)
      ensures peerlist.popped == old(peerlist.popped) + if asked.Some? then [asked.value.key] else []
      ensures old(done) || cancelled ==>
        asked == None && done && failures == old(failures) && inflightRequests == old(inflightRequests) - 1
      ensures failures >= old(failures)
      ensures asked.Some? ==> NearestAsked(peerlist, asked.value)
      ensures forall k :: asked == None || asked == Some(k) ==> Others(peerlist, k) == old(Others(peerlist, k))
      ensures !old(done) && !cancelled ==>
        (asked == None <==> old(peerlist.queuedCount) == 0)
        && peerlist.queuedCount == old(peerlist.queuedCount) - (if asked.Some? then 1 else 0)
      ensures cancelled == old(cancelled) && peerlist.spine == old(peerlist.spine)
      ensures !old(done) && !cancelled && asked.Some? && sendFails && !done ==>
        newRequests == old(newRequests) - 1 + ToSend(old(inflightRequests) - 1)
      ensures !old(done) && !cancelled && asked.Some? && sendFails ==>
        (done <==> old(inflightRequests) == 1 && peerlist.queuedCount == 0)
      ensures !old(done) && !cancelled && !(asked.Some? && sendFails) ==> !done
      ensures asked.Some? && sendFails ==> Listed(peerlist, asked.value, Unreachable)
      ensures tableAdds == old(tableAdds)
      ensures tableRemoves == old(tableRemoves) + if asked.Some? && sendFails then [asked.value.key] else []
      ensures !(asked.Some? && sendFails) ==> newRequests == old(newRequests) - 1
      ensures Hung() <==>
        old(!done && !cancelled && newRequests == 1 && outstanding == {} && peerlist.queuedCount == 0)
    {
      hide AllAsked, WaitingIn, Ids, PeerList.Valid, Elems, NearestAsked, Listed, Others;
      asked := None;
      newRequests := newRequests - 1;
      var over := CheckIfDone();
      if over {
        inflightRequests := inflightRequests - 1;
        return;
      }
      asked := Ask(sendFails);
    }

    /** A scheduled request, taken off the counter of scheduled ones, goes to the nearest peer not asked. */
    method Ask(sendFails: bool) returns (asked: Option<NodeID>)
      requires peerlist.Valid() && concurrency > 0 && (forall x :: x in Elems(peerlist.spine) ==> Honest(x.id))
      requires !done && !cancelled && failures == 0
      requires inflightRequests == newRequests + 1 + |outstanding| && inflightRequests <= concurrency
      requires outstanding == Ids(WaitingIn(peerlist.spine))
      modifies this, peerlist, peerlist.spine
      ensures Valid() && cancelled == old(cancelled) && peerlist.spine == old(peerlist.spine)
      ensures outstanding == old(outstanding) + if asked.Some? && !sendFails then {asked.value} else {}
      ensures asked.Some? ==> asked.value !in old(outstanding) && NearestAsked(peerlist, asked.value)
      ensures peerlist.popped == old(peerlist.popped) + if asked.Some? then [asked.value.key] else []
      ensures forall k :: asked == None || asked == Some(k) ==> Others(peerlist, k) == old(Others(peerlist, k))
      ensures asked == None <==> old(peerlist.queuedCount) == 0
      ensures peerlist.queuedCount == old(peerlist.queuedCount) - if asked.Some? then 1 else 0
      ensures done <==> asked.Some? && sendFails && old(inflightRequests) == 1 && peerlist.queuedCount == 0
      ensures newRequests == old(newRequests) +
        if asked.Some? && sendFails && !done then ToSend(old(inflightRequests) - 1) else 0
      ensures asked.Some? && sendFails ==> !Hung() && Listed(peerlist, asked.value, Unreachable)
      ensures tableAdds == old(tableAdds)
      ensures tableRemoves == old(tableRemoves) + if asked.Some? && sendFails then [asked.value.key] else []
    {
      hide AllAsked, WaitingIn, Ids, PeerList.Valid, Elems, NearestAsked, Listed, SimpleQuery.Honest, Others;
      asked := PopNext();
      if asked == None {
        inflightRequests := inflightRequests - 1;
      } else if sendFails {
        assert Valid();
        hide SimpleQuery.Valid;
        RequestError(asked.value);
      }
    }

    /** The handler of a request is called with an error, or could not even be registered. */
    method RequestError(id: NodeID)
      requires Valid() && id in outstanding
      modifies this, peerlist.spine`status
      ensures Valid() && outstanding == old(outstanding) - {id}
      ensures tableRemoves == if cancelled then old(tableRemoves) else old(tableRemoves) + [id.key]
      ensures cancelled == old(cancelled) && tableAdds == old(tableAdds) && newRequests >= old(newRequests)
      ensures forall k :: old(NearestAsked(peerlist, k)) ==> NearestAsked(peerlist, k)
      ensures !old(done) && !cancelled ==> Listed(peerlist, id, Unreachable)
      ensures old(done) || cancelled ==>
        done && failures == old(failures) && inflightRequests == old(inflightRequests) - 1
      ensures failures >= old(failures) && !Hung()
      ensures !old(done) && !cancelled ==> (done <==> old(inflightRequests) == 1 && peerlist.queuedCount == 0)
      ensures !done ==> newRequests == old(newRequests) + ToSend(old(inflightRequests) - 1)
      ensures !old(done) && !cancelled ==> (done <==> failures == 1)
      ensures done ==> newRequests == old(newRequests)
      ensures Others(peerlist, id) == old(Others(peerlist, id))
    {
      hide AllAsked, WaitingIn, Ids, PeerList.Valid, Elems, Represented, NearestAsked, Listed, Others, NewQueued;
      inflightRequests := inflightRequests - 1;
      if !cancelled {
        tableRemoves := tableRemoves + [id.key];
      }
      var over := CheckIfDone();
      if over {
        outstanding := outstanding - {id};
        return;
      }
      Settle(id, false);
      EnqueueNewRequests();
    }

    /** The handler of a request is called with a response, or with none. stop and useful are what the
        caller's result function makes of it. */
    method HandleResponse(id: NodeID, resp: Option<Response>, stop: bool, useful: array<NodeID>)
      requires Valid() && id in outstanding && AllNamed(useful[..], keyNamed)
      modifies this, peerlist, peerlist.spine, useful
      ensures Valid() && outstanding == old(outstanding) - {id}
      ensures old(done) || cancelled ==> done && failures == old(failures) && tableAdds == old(tableAdds)
      ensures old(done) || cancelled ==>
        inflightRequests == old(inflightRequests) && peerlist.spine == old(peerlist.spine)
      ensures failures >= old(failures) && (old(done) ==> done) && !Hung()
      ensures tableRemoves == old(tableRemoves) + if !old(done) && !cancelled && resp.None? then [id.key] else []
      ensures resp.None? ==> tableAdds == old(tableAdds)
      ensures !old(done) && !cancelled ==> Listed(peerlist, id, if resp.Some? then Queried else Unreachable)
      ensures !old(done) && !cancelled && resp.Some? ==>
        tableAdds == old(tableAdds) + if resp.value.closerNodes != [] then [id] else []
      ensures !old(done) && !cancelled && resp.Some? && !stop ==>
        Represented(peerlist.target, Given(Without(old(useful[..]), self)), peerlist.spine)
      ensures !old(done) && !cancelled && resp.Some? && stop ==>
        done && failures == 0 && peerlist.spine == old(peerlist.spine) && inflightRequests == old(inflightRequests) - 1
      ensures cancelled == old(cancelled)
      ensures !old(done) && !cancelled && (resp.None? || !stop) ==>
        (done <==> failures == 1) && (done <==> old(inflightRequests) == 1 && peerlist.queuedCount == 0)
      ensures newRequests == old(newRequests) + if done then 0 else ToSend(old(inflightRequests) - 1)
      ensures Extends(old(Others(peerlist, id)), Others(peerlist, id))
      ensures NewQueued(peerlist, Elems(old(peerlist.spine)))
      ensures forall x :: x in Elems(peerlist.spine) - Elems(old(peerlist.spine)) ==>
        x.id in old(useful[..]) && x.id.key != self
    {
      hide AllAsked, WaitingIn, Ids, PeerList.Valid, Elems, Represented, AllNamed, NearestAsked, Listed, Others;
      hide NewQueued, Extends;
      NoneNew(peerlist);
      var over := CheckIfDone();
      if over {
        outstanding := outstanding - {id};
        return;
      }
      if resp == None {
        RequestError(id);
        NoneNew(peerlist);
        return;
      }
      TakeResponse(id, resp.value, stop, useful);
    }

    /** A response has come while the query runs. */
    method TakeResponse(id: NodeID, resp: Response, stop: bool, useful: array<NodeID>)
      requires Valid() && !done && id in outstanding && AllNamed(useful[..], keyNamed)
      modifies this, peerlist, peerlist.spine, useful
      ensures Valid() && outstanding == old(outstanding) - {id} && !Hung()
      ensures tableRemoves == old(tableRemoves) && cancelled == old(cancelled)
      ensures tableAdds == old(tableAdds) + if resp.closerNodes != [] then [id] else []
      ensures Listed(peerlist, id, Queried)
      ensures !stop ==> Represented(peerlist.target, Given(Without(old(useful[..]), self)), peerlist.spine)
      ensures stop ==>
        done && failures == 0 && peerlist.spine == old(peerlist.spine) && inflightRequests == old(inflightRequests) - 1
      ensures !stop ==> (done <==> failures == 1) && (done <==> old(inflightRequests) == 1 && peerlist.queuedCount == 0)
      ensures newRequests == old(newRequests) + if done then 0 else ToSend(old(inflightRequests) - 1)
      ensures Extends(old(Others(peerlist, id)), Others(peerlist, id))
      ensures NewQueued(peerlist, Elems(old(peerlist.spine)))
      ensures forall x :: x in Elems(peerlist.spine) - Elems(old(peerlist.spine)) ==>
        x.id in old(useful[..]) && x.id.key != self
    {
      hide AllAsked, WaitingIn, Ids, PeerList.Valid, Elems, Represented, AllNamed, NearestAsked, Listed, Others;
      if resp.closerNodes != [] {
        tableAdds := tableAdds + [id];
      }
      inflightRequests := inflightRequests - 1;
      hide NewQueued, Extends;
      Settle(id, true);
      NoneNew(peerlist);
      if stop {
        done := true;
        return;
      }
      FollowUp(useful);
    }

    /** Add the useful peers of a response to the list and go on. */
    method FollowUp(useful: array<NodeID>)
      requires Valid() && !done && AllNamed(useful[..], keyNamed)
      modifies this`done, this`failures, this`newRequests, this`inflightRequests, peerlist, peerlist.spine`next, useful
      ensures Valid() && Represented(peerlist.target, Given(Without(old(useful[..]), self)), peerlist.spine) && !Hung()
      ensures (done <==> failures == 1) && (done <==> old(inflightRequests) == 0 && peerlist.queuedCount == 0)
      ensures newRequests == old(newRequests) + if done then 0 else ToSend(old(inflightRequests))
      ensures forall k, st :: old(Listed(peerlist, k, st)) ==> Listed(peerlist, k, st)
      ensures forall k :: Extends(old(Others(peerlist, k)), Others(peerlist, k))
      ensures NewQueued(peerlist, Elems(old(peerlist.spine)))
      ensures forall x :: x in Elems(peerlist.spine) - Elems(old(peerlist.spine)) ==>
        x.id in old(useful[..]) && x.id.key != self
    {
      hide AllAsked, WaitingIn, Ids, PeerList.Valid, Elems, Represented, AllNamed, Without, Listed, Others, Extends;
      hide NewQueued;
      WithoutNamed(useful[..], self, keyNamed);
      var n := FilterSelf(useful);
      AddUseful(useful[..n]);
      EnqueueNewRequests();
    }

    /** The node of an answered request stops waiting. */
    method Settle(id: NodeID, reached: bool)
      requires peerlist.Valid() && id in outstanding && outstanding == Ids(WaitingIn(peerlist.spine))
      requires forall x :: x in Elems(peerlist.spine) ==> Honest(x.id)
      modifies this`outstanding, peerlist.spine`status
      ensures peerlist.Valid() && outstanding == old(outstanding) - {id}
      ensures outstanding == Ids(WaitingIn(peerlist.spine))
      ensures forall k :: old(NearestAsked(peerlist, k)) ==> NearestAsked(peerlist, k)
      ensures Listed(peerlist, id, if reached then Queried else Unreachable)
      ensures Others(peerlist, id) == old(Others(peerlist, id))
    {
      hide PeerList.Valid;
      ghost var w := WaitingIn(peerlist.spine);
      ghost var x :| x in w && x.id == id;
      NodeOf(peerlist, keyNamed, x);
      IdsRemove(w, x);
      Mark(id, reached, x);
      hide Ids;
      assert WaitingIn(peerlist.spine) == w - {x};
      outstanding := outstanding - {id};
    }

    /** Tell the list what became of the request to a node. */
    method Mark(id: NodeID, reached: bool, ghost x: NodeInfo)
      requires peerlist.Valid() && x in Elems(peerlist.spine) && x.status == Waiting
      requires FirstNamed(peerlist.spine, id.name) == x
      modifies peerlist.spine`status
      ensures peerlist.Valid() && x.status == if reached then Queried else Unreachable
      ensures forall y :: y in Elems(peerlist.spine) && y != x ==> y.status == old(y.status)
    {
      hide *;
      if reached {
        peerlist.QueriedPeer(id);
      } else {
        peerlist.UnreachablePeer(id);
      }
    }

    /** The peers a response brought join the list; nobody starts or stops waiting. */
    method AddUseful(ids: seq<NodeID>)
      requires peerlist.Valid() && AllNamed(ids, keyNamed) && forall x :: x in Elems(peerlist.spine) ==> Honest(x.id)
      modifies peerlist, peerlist.spine`next
      ensures peerlist.Valid() && WaitingIn(peerlist.spine) == old(WaitingIn(peerlist.spine))
      ensures Represented(peerlist.target, Given(ids), peerlist.spine)
      ensures forall k, st :: old(Listed(peerlist, k, st)) ==> Listed(peerlist, k, st)
      ensures forall x :: x in Elems(peerlist.spine) ==> Honest(x.id)
      ensures forall k :: Extends(old(Others(peerlist, k)), Others(peerlist, k))
      ensures NewQueued(peerlist, Elems(old(peerlist.spine)))
      ensures forall x :: x in Elems(peerlist.spine) - Elems(old(peerlist.spine)) ==> fresh(x) && x.id in ids
    {
      hide PeerList.Valid, Represented, AllNamed;
      GivenNamed(ids, keyNamed);
      peerlist.AddToPeerlist(Given(ids));
    }

    /** Drop the ids with the query's own key, keeping the others in order at the front of the array. */
    method FilterSelf(useful: array<NodeID>) returns (n: nat)
      modifies useful
      ensures n <= useful.Length && useful[..n] == Without(old(useful[..]), self)
    {
      n := 0;
      for i := 0 to useful.Length
        invariant n <= i && useful[..n] == Without(old(useful[..])[..i], self) && useful[i..] == old(useful[..])[i..]
      {
        ghost var was := old(useful[..]);
        assert was[..i + 1][..i] == was[..i] && useful[i] == was[i];
        if useful[i].key != self {
          useful[n] := useful[i];
          n := n + 1;
        }
      }
      assert old(useful[..])[..useful.Length] == old(useful[..]);
    }

    /** Take the next peer to ask from the list; if there is one, a request to it is out. */
    method PopNext() returns (id: Option<NodeID>)
      requires peerlist.Valid() && outstanding == Ids(WaitingIn(peerlist.spine))
      modifies this`outstanding, peerlist, peerlist.spine`status
      ensures peerlist.Valid() && outstanding == Ids(WaitingIn(peerlist.spine)) && peerlist.spine == old(peerlist.spine)
      ensures id.Some? ==> id.value !in old(outstanding) && NearestAsked(peerlist, id.value)
      ensures forall k :: id == None || id == Some(k) ==> Others(peerlist, k) == old(Others(peerlist, k))
      ensures id == None <==> old(peerlist.queuedCount) == 0
      ensures peerlist.queuedCount == old(peerlist.queuedCount) - if id.Some? then 1 else 0
      ensures outstanding == old(outstanding) + if id.Some? then {id.value} else {}
      ensures peerlist.popped == old(peerlist.popped) + if id.Some? then [id.value.key] else []
    {
      hide PeerList.Valid;
      ghost var w := WaitingIn(peerlist.spine);
      ghost var pi;
      id, pi := peerlist.PopClosestQueued();
      if pi == null {
        assert WaitingIn(peerlist.spine) == w;
      } else {
        AskedFits(peerlist, pi);
        assert WaitingIn(peerlist.spine) == w + {pi};
        IdsAdd(w, pi);
        UniqueNode(peerlist, pi);
        outstanding := outstanding + {pi.id};
      }
    }
  }

  /** Nodes are told apart by key, so by id. */
  lemma UniqueNode(pl: PeerList, x: NodeInfo)
    requires pl.Valid() && x in Elems(pl.spine)
    ensures forall y :: y in Elems(pl.spine) && y.id == x.id ==> y == x
  {
    SortedKeys(pl.target, pl.spine, x);
  }

  /** With honest names, an answer is matched to the node that was asked. */
  lemma NodeOf(pl: PeerList, keyNamed: string -> Key, x: NodeInfo)
    requires pl.Valid() && x in Elems(pl.spine) && forall y :: y in Elems(pl.spine) ==> y.id.key == keyNamed(y.id.name)
    ensures FirstNamed(pl.spine, x.id.name) == x
    ensures forall y :: y in Elems(pl.spine) && y.id == x.id ==> y == x
  {
    NamedNode(pl.target, pl.spine, keyNamed, x);
  }

  lemma AskedFits(pl: PeerList, pi: NodeInfo)
    requires pl.Valid() && pi in Elems(pl.spine)
    ensures |pi.id.key| == |pl.target| && pi.distance == Xor(pl.target, pi.id.key)
  {}

  lemma QueuedCountIsNat(pl: PeerList)
    requires pl.Valid()
    ensures pl.queuedCount >= 0
  {}

  // ---------- a query that is never called back ----------

  /** The ids of the nodes of a list. */
  function IdsOf(spine: seq<NodeInfo>): (r: seq<NodeID>)
    ensures |r| == |spine| && forall i :: 0 <= i < |spine| ==> r[i] == spine[i].id
  {
    seq(|spine|, i requires 0 <= i < |spine| => spine[i].id)
  }

  lemma TwoIds(ids: seq<NodeID>, a: NodeID, b: NodeID)
    requires forall i, j :: 0 <= i < j < |ids| ==> ids[i] != ids[j]
    requires forall i :: 0 <= i < |ids| ==> ids[i] == a || ids[i] == b
    requires a in ids && b in ids && a != b
    ensures |ids| == 2
  {
    Nearest.DistinctCount(ids);
    assert (set id | id in ids) == {a, b};
  }

  lemma IdsDiffer(pl: PeerList)
    requires pl.Valid()
    ensures forall i, j :: 0 <= i < j < |pl.spine| ==> pl.spine[i].id != pl.spine[j].id
  {
    hide FirstIn, CountIn, PoppedOnce, LinkedFrom, Value;
    forall i, j | 0 <= i < j < |pl.spine|
      ensures pl.spine[i].id != pl.spine[j].id
    {
      SortedKeys(pl.target, pl.spine, pl.spine[i]);
      assert pl.spine[i] in Elems(pl.spine) && pl.spine[j] in Elems(pl.spine);
    }
  }

  lemma AllQueuedCount(pl: PeerList)
    requires pl.Valid() && forall x :: x in Elems(pl.spine) ==> x.status == Queued
    ensures pl.queuedCount == |pl.spine|
  {
    hide Value, Sorted, ForTarget, LinkedFrom, PoppedOnce;
    assert forall x :: x in pl.spine ==> x in Elems(pl.spine);
    AllIn(pl.spine, QueuedIn(pl.spine));
  }

  lemma KeyListed(spine: seq<NodeInfo>, target: Key, ids: seq<NodeID>, id: NodeID, other: NodeID)
    requires Represented(target, Given(ids), spine) && id in ids && Usable(target, Some(id)) && id.key != other.key
    requires forall x :: x in Elems(spine) ==> x.id == id || x.id == other
    ensures id in IdsOf(spine)
  {
    var k :| 0 <= k < |ids| && ids[k] == id;
    assert Given(ids)[k] == Some(id);
    var x :| x in spine && x.id.key == id.key;
    assert x in Elems(spine);
    var i :| 0 <= i < |spine| && spine[i] == x;
    assert IdsOf(spine)[i] == id;
  }

  /** A list of two different peers, both queued, is counted as that. */
  lemma TwoQueued(pl: PeerList, ids: seq<NodeID>, a: NodeID, b: NodeID)
    requires pl.Valid() && Represented(pl.target, Given(ids), pl.spine) && a in ids && b in ids && a.key != b.key
    requires Usable(pl.target, Some(a)) && Usable(pl.target, Some(b))
    requires forall x :: x in Elems(pl.spine) ==> x.status == Queued && (x.id == a || x.id == b)
    ensures pl.queuedCount == 2
  {
    AllQueuedCount(pl);
    IdsDiffer(pl);
    hide PeerList.Valid, Represented, Usable;
    assert forall i :: 0 <= i < |pl.spine| ==> pl.spine[i] in Elems(pl.spine);
    KeyListed(pl.spine, pl.target, ids, a, b);
    KeyListed(pl.spine, pl.target, ids, b, a);
    TwoIds(IdsOf(pl.spine), a, b);
  }

  /** Two peers, both asked in vain: each refusal frees a place, and the first one schedules a request too many
      for the one peer left. The last request finds nobody, and the query is neither over nor ever called back. */
  method TwoRefusals() returns (q: SimpleQuery?)
    ensures q != null && q.Valid() && q.Hung() && !q.cancelled && q.failures == 0
  {
    hide SimpleQuery.Valid, SimpleQuery.Hung;
    q := TwoPeers([false, false], NodeID("a", [false, true]), NodeID("b", [true, true]));
    RefuseTwo(q);
  }

  /** A query with concurrency 2 for two peers. */
  method TwoPeers(target: Key, a: NodeID, b: NodeID) returns (q: SimpleQuery)
    requires a.key != b.key && a.name != b.name
    requires Usable(target, Some(a)) && Usable(target, Some(b))
    ensures fresh(q) && fresh(q.peerlist) && fresh(q.peerlist.spine) && q.Valid() && !q.done && !q.cancelled
    ensures q.concurrency == 2 && q.outstanding == {} && q.peerlist.queuedCount == 2 && q.newRequests == 2
  {
    hide PeerList.Valid, WaitingIn, Ids, AllAsked, Represented, Usable, SimpleQuery.Hung;
    ghost var keyNamed := (name: string) => if name == a.name then a.key else b.key;
    q := SimpleQuery.NewSimpleQuery(target, target, 2, [a, b], keyNamed);
    assert q.peerlist.Valid();
    assert forall i :: 0 <= i < |q.peerlist.spine| ==> q.peerlist.spine[i] in Elems(q.peerlist.spine);
    hide SimpleQuery.Valid;
    TwoQueued(q.peerlist, [a, b], a, b);
  }

  /** Such a query, with each of its requests refused at once. */
  method RefuseTwo(q: SimpleQuery)
    requires q.Valid() && !q.done && !q.cancelled
    requires q.concurrency == 2 && q.outstanding == {} && q.peerlist.queuedCount == 2 && q.newRequests == 2
    modifies q, q.peerlist, q.peerlist.spine
    ensures q.Valid() && q.Hung() && !q.cancelled && q.failures == 0
  {
    hide PeerList.Valid, WaitingIn, Ids, AllAsked, NearestAsked, Elems;
    var first := q.NewRequest(true);
    var second := q.NewRequest(true);
    var third := q.NewRequest(false);
  }
}
