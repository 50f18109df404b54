/** The simulated endpoint: requests, replies and timeouts racing for the same response handler. */
module Endpoints {
  import opened Options
  import opened Times
  import opened Planners
  import opened Schedulers

  type Peer = string
  type StreamID = nat
  /** A request stands for the response handler it was sent with; requests are numbered as they are made. */
  type Request = nat

  datatype NodeInfo = NodeInfo(id: Peer, addresses: seq<string>)

  datatype Connectedness = Connected | CanConnect

  datatype Outcome = Reply | InvalidReply | TimedOut | UnknownPeer

  datatype Call = Call(req: Request, outcome: Outcome)

  /** A message carries the closer nodes of a response; any other message carries nothing here. */
  datatype Message = Response(closer: seq<NodeInfo>) | Other

  /** What an endpoint has its scheduler do: call a response handler, time a stream out, take in a message. */
  datatype Task =
    | CallHandler(call: Call)
    | StreamTimeout(sid: StreamID)
    | Deliver(from: Peer, sid: StreamID, msg: Message)

  /** An action of a scheduler, which several endpoints and other components may share: a task of one endpoint,
      or anything else, such as a request of a simple query. */
  datatype Action = Of(owner: Peer, task: Task) | Work

  predicate IsOf(self: Peer, a: Action) {
    a.Of? && a.owner == self
  }

  predicate IsCallOf(self: Peer, a: Action) {
    IsOf(self, a) && a.task.CallHandler?
  }

  predicate IsTimeoutOf(self: Peer, a: Action) {
    IsOf(self, a) && a.task.StreamTimeout?
  }

  ghost function CallOf(self: Peer, a: Action): multiset<Request> {
    if IsCallOf(self, a) then multiset{a.task.call.req} else multiset{}
  }

  /** The requests whose handler calls are waiting in a queue. */
  ghost function Calls(self: Peer, queue: seq<Action>): multiset<Request> {
    if queue == [] then multiset{} else CallOf(self, queue[0]) + Calls(self, queue[1..])
  }

  lemma {:induction false} CallsConcat(self: Peer, a: seq<Action>, b: seq<Action>)
    ensures Calls(self, a + b) == Calls(self, a) + Calls(self, b)
  {
    hide CallOf;
    if a == [] {
      assert a + b == b;
    } else {
      CallsConcat(self, a[1..], b);
      assert (a + b)[1..] == a[1..] + b;
    }
  }

  lemma CallsAppend(self: Peer, q: seq<Action>, a: Action)
    ensures Calls(self, q + [a]) ==
      if IsCallOf(self, a) then Calls(self, q) + multiset{a.task.call.req} else Calls(self, q)
  {
    CallsConcat(self, q, [a]);
    assert [a][1..] == [];
  }

  lemma {:induction false} NoCalls(self: Peer, q: seq<Action>)
    requires forall i :: 0 <= i < |q| ==> !IsCallOf(self, q[i])
    ensures Calls(self, q) == multiset{}
  {
    if q != [] {
      NoCalls(self, q[1..]);
    }
  }

  /** Every request made so far is in exactly one place, once: its handler is kept for one stream, or one
      call of it is waiting or made. */
  ghost predicate OncePerRequest(followup: map<StreamID, Request>, calls: multiset<Request>, made: nat) {
    && (forall s, t :: s in followup && t in followup && followup[s] == followup[t] ==> s == t)
    && (forall r :: r in calls ==> calls[r] == 1 && r < made)
    && (forall s :: s in followup ==> followup[s] < made && followup[s] !in calls)
    && (forall r: Request :: r < made ==> r in calls || exists s :: s in followup && followup[s] == r)
  }

  lemma OnceAfterSend(followup: map<StreamID, Request>, calls: multiset<Request>, made: nat, sid: StreamID)
    requires OncePerRequest(followup, calls, made) && sid !in followup
    ensures OncePerRequest(followup[sid := made], calls, made + 1)
  {
    var f := followup[sid := made];
    assert f[sid] == made;
    forall r: Request | r < made + 1 && r !in calls
      ensures exists s :: s in f && f[s] == r
    {
      if r < made {
        var s :| s in followup && followup[s] == r;
        assert s in f && f[s] == r;
      }
    }
  }

  lemma OnceAfterRefusal(followup: map<StreamID, Request>, calls: multiset<Request>, made: nat)
    requires OncePerRequest(followup, calls, made)
    ensures OncePerRequest(followup, calls + multiset{made}, made + 1)
  {}

  lemma OnceAfterClaim(followup: map<StreamID, Request>, calls: multiset<Request>, made: nat, sid: StreamID)
    requires OncePerRequest(followup, calls, made) && sid in followup
    ensures OncePerRequest(followup - {sid}, calls + multiset{followup[sid]}, made)
  {
    var f := followup - {sid};
    forall r: Request | r < made && r !in calls + multiset{followup[sid]}
      ensures exists s :: s in f && f[s] == r
    {
      var s :| s in followup && followup[s] == r;
      assert s in f && f[s] == r;
    }
  }

  /** The handler of a stream is invoked straight away: it had not been. */
  lemma OnceAfterInvoke(followup: map<StreamID, Request>, calls: multiset<Request>, invoked: seq<Request>, made: nat,
                        sid: StreamID)
    requires OncePerRequest(followup, calls + multiset(invoked), made) && sid in followup
    ensures OncePerRequest(followup - {sid}, calls + multiset(invoked + [followup[sid]]), made)
    ensures followup[sid] !in invoked && followup[sid] < made
  {
    OnceAfterClaim(followup, calls + multiset(invoked), made, sid);
    assert calls + multiset(invoked) + multiset{followup[sid]} == calls + multiset(invoked + [followup[sid]]);
    assert forall r :: r in invoked ==> r in calls + multiset(invoked);
  }

  /** A waiting call is made: it had not been. */
  lemma OnceAfterCall(followup: map<StreamID, Request>, calls: multiset<Request>, invoked: seq<Request>, made: nat,
                      r: Request)
    requires OncePerRequest(followup, calls + multiset(invoked) + multiset{r}, made)
    ensures OncePerRequest(followup, calls + multiset(invoked + [r]), made) && r !in invoked && r < made
  {
    assert calls + multiset(invoked) + multiset{r} == calls + multiset(invoked + [r]);
    var m := calls + multiset(invoked) + multiset{r};
    assert r in m;
    assert r in invoked ==> r in multiset(invoked);
  }

  /** No handler is invoked twice, and none that is still waiting has been invoked. */
  lemma InvokedAtMostOnce(self: Peer, followup: map<StreamID, Request>, queue: seq<Action>, invoked: seq<Request>,
                          made: nat)
    requires OncePerRequest(followup, Calls(self, queue) + multiset(invoked), made)
    ensures forall i, j :: 0 <= i < j < |invoked| ==> invoked[i] != invoked[j]
    ensures forall r :: r in invoked ==> r !in Calls(self, queue) && forall s :: s in followup ==> followup[s] != r
  {
    forall i, j | 0 <= i < j < |invoked|
      ensures invoked[i] != invoked[j]
    {
      assert invoked == invoked[..j] + [invoked[j]] + invoked[j + 1..];
      assert invoked[i] in multiset(invoked[..j]) by {
        assert invoked[..j][i] == invoked[i];
      }
      assert multiset(invoked) == multiset(invoked[..j]) + multiset{invoked[j]} + multiset(invoked[j + 1..]);
      var r := invoked[i];
      assert r in Calls(self, queue) + multiset(invoked);
    }
    forall r | r in invoked
      ensures r !in Calls(self, queue)
    {
      assert r in Calls(self, queue) + multiset(invoked);
    }
  }

  /** Once nothing waits, every request made has had its handler invoked exactly once. */
  lemma EveryRequestAnswered(self: Peer, queue: seq<Action>, invoked: seq<Request>, made: nat)
    requires OncePerRequest(map[], Calls(self, queue) + multiset(invoked), made)
    requires forall i :: 0 <= i < |queue| ==> !IsCallOf(self, queue[i])
    ensures forall r: Request :: multiset(invoked)[r] == if r < made then 1 else 0
  {
    NoCalls(self, queue);
    assert Calls(self, queue) + multiset(invoked) == multiset(invoked);
    assert forall r: Request :: r !in multiset(invoked) ==> multiset(invoked)[r] == 0;
  }

  /** A peer has a stored entry under its own name exactly when it has a connection status. */
  ghost predicate Known(peerstore: map<Peer, NodeInfo>, connStatus: map<Peer, Connectedness>) {
    peerstore.Keys == connStatus.Keys && forall p :: p in peerstore ==> peerstore[p].id == p
  }

  /** The peer store after the nodes of a response have been stored one by one. */
  ghost function Stored(peerstore: map<Peer, NodeInfo>, closer: seq<NodeInfo>): map<Peer, NodeInfo> {
    if closer == [] then peerstore else
    var last := closer[|closer| - 1];
    Stored(peerstore, closer[..|closer| - 1])[last.id := last]
  }

  ghost function Reachable(connStatus: map<Peer, Connectedness>, closer: seq<NodeInfo>): map<Peer, Connectedness> {
    if closer == [] then connStatus else
    Reachable(connStatus, closer[..|closer| - 1])[closer[|closer| - 1].id := CanConnect]
  }

  lemma NothingNamed(peerstore: map<Peer, NodeInfo>, connStatus: map<Peer, Connectedness>)
    ensures Stored(peerstore, []) == peerstore && Reachable(connStatus, []) == connStatus
  {}

  /** Where a response names p last, or -1. */
  ghost function LastNamed(closer: seq<NodeInfo>, p: Peer): (r: int)
    ensures -1 <= r < |closer|
    ensures r >= 0 ==> closer[r].id == p
    ensures forall j :: r < j < |closer| ==> closer[j].id != p
  {
    if closer == [] then -1 else
    if closer[|closer| - 1].id == p then |closer| - 1 else LastNamed(closer[..|closer| - 1], p)
  }

  /** A peer named by a response can be connected to and is stored as last named; the others stay as they were. */
  lemma {:induction false} LearnedFrom(peerstore: map<Peer, NodeInfo>, connStatus: map<Peer, Connectedness>,
                                       closer: seq<NodeInfo>, p: Peer)
    ensures var i, m, c := LastNamed(closer, p), Stored(peerstore, closer), Reachable(connStatus, closer);
      if i >= 0 then p in m && m[p] == closer[i] && p in c && c[p] == CanConnect
      else (
        && (p in m <==> p in peerstore) && (p in m ==> m[p] == peerstore[p])
        && (p in c <==> p in connStatus) && (p in c ==> c[p] == connStatus[p]))
  {
    if closer != [] {
      LearnedFrom(peerstore, connStatus, closer[..|closer| - 1], p);
    }
  }

  /** The streams in use are numbers the router has given out already. */
  ghost predicate Issued(followup: map<StreamID, Request>, currStream: StreamID) {
    0 < currStream && forall s :: s in followup ==> 0 < s < currStream
  }

  /** No handler call is planned, and each timeout kept for a stream not in loose is still on its way: planned,
      or already in the queue. */
  ghost predicate Armed(self: Peer, timeouts: map<StreamID, TimedAction?<Action>>, spine: seq<TimedAction<Action>>,
                        queue: seq<Action>, loose: set<StreamID>) {
    && (forall x :: x in spine ==> !IsCallOf(self, x.action))
    && (forall s :: s in timeouts && timeouts[s] != null ==> timeouts[s].action == Of(self, StreamTimeout(s)))
    && (forall s :: s in timeouts && s !in loose ==>
        Of(self, StreamTimeout(s)) in queue || (timeouts[s] != null && timeouts[s] in spine))
  }

  lemma ArmedWithout(self: Peer, timeouts: map<StreamID, TimedAction?<Action>>, spine: seq<TimedAction<Action>>,
                     queue: seq<Action>, sid: StreamID, left: seq<TimedAction<Action>>)
    requires Armed(self, timeouts, spine, queue, {sid})
    requires forall x :: x in left ==> x in spine
    requires forall x :: x in spine ==> x in left || (sid in timeouts && x == timeouts[sid])
    ensures Armed(self, timeouts - {sid}, left, queue, {})
  {}

  /** The stream an action times out for an endpoint, if it does. */
  ghost function Loosened(self: Peer, a: Action): set<StreamID> {
    if IsTimeoutOf(self, a) then {a.task.sid} else {}
  }

  lemma ArmedAfterNext(self: Peer, timeouts: map<StreamID, TimedAction?<Action>>, spine: seq<TimedAction<Action>>,
                       queue: seq<Action>, n: nat)
    requires Armed(self, timeouts, spine, queue, {}) && n <= |spine|
    ensures var work := queue + Actions(spine[..n]);
      if work == [] then Armed(self, timeouts, spine[n..], work, {})
      else Armed(self, timeouts, spine[n..], work[1..], Loosened(self, work[0]))
  {
    var work := queue + Actions(spine[..n]);
    assert forall x :: x in spine ==> x in spine[n..] || x.action in work by {
      assert spine == spine[..n] + spine[n..];
      assert forall i :: 0 <= i < n ==> work[|queue| + i] == spine[i].action;
    }
    hide Actions;
    assert forall a :: a in queue ==> a in work;
    assert work != [] ==> work == [work[0]] + work[1..];
  }

  /** What moves from the plan to the queue adds no calls. */
  lemma CallsAfterNext(self: Peer, timeouts: map<StreamID, TimedAction?<Action>>, spine: seq<TimedAction<Action>>,
                       queue: seq<Action>, n: nat)
    requires Armed(self, timeouts, spine, queue, {}) && n <= |spine|
    ensures Calls(self, queue + Actions(spine[..n])) == Calls(self, queue)
  {
    assert forall i :: 0 <= i < n ==> spine[i] in spine;
    CallsConcat(self, queue, Actions(spine[..n]));
    NoCalls(self, Actions(spine[..n]));
  }

  /** What a task comes to: the handler call made now, the streams it ends, the nodes it makes known, the handler
      calls it queues, and the reply it sends. */
  datatype Effect = Effect(called: Option<Call>, ended: set<StreamID>, named: seq<NodeInfo>, calls: seq<Action>,
                           reply: Option<Action>)

  /** What a task of endpoint self comes to. A call is made; a timeout invokes the handler kept for its stream, if
      any; a message for a stream with a handler queues its call, and any other is a request, whose answer goes back
      on the same stream, or on a new one for stream 0. */
  ghost function EffectOf(self: Peer, task: Option<Task>, followup: map<StreamID, Request>, next: StreamID,
                          answer: Option<Message>): Effect {
    match task
    case None => Effect(None, {}, [], [], None)
    case Some(CallHandler(call)) => Effect(Some(call), {}, [], [], None)
    case Some(StreamTimeout(sid)) =>
      Effect(if sid in followup then Some(Call(followup[sid], TimedOut)) else None, {sid}, [], [], None)
    case Some(Deliver(from, sid, msg)) =>
      if sid in followup then
        var call := Call(followup[sid], if msg.Response? then Reply else InvalidReply);
        Effect(None, {sid}, if msg.Response? then msg.closer else [], [Of(self, CallHandler(call))], None)
      else
        var stream := if sid == 0 then next else sid;
        Effect(None, {sid}, [], [],
               if answer.Some? then Some(Of(from, Deliver(self, stream, answer.value))) else None)
  }

  /** The simulated network: the scheduler of every peer, and the shared stream counter. */
  class Router {
    var currStream: StreamID
    var scheds: map<Peer, SimpleScheduler<Action>>

    constructor ()
      ensures currStream == 1 && scheds == map[]
    {
      currStream, scheds := 1, map[];
    }

    method AddPeer(id: Peer, sched: SimpleScheduler<Action>)
      modifies this`scheds
      ensures scheds == old(scheds)[id := sched]
    {
      scheds := scheds[id := sched];
    }

    /** The scheduler a message to a peer goes to. */
    ghost function Receiver(to: Peer): set<SimpleScheduler<Action>>
      reads this
    {
      if to in scheds then {scheds[to]} else {}
    }

    /** Queue the handling of a message at the receiver's scheduler. Stream 0 asks for a new stream. */
    method SendMessage(from: Peer, to: Peer, sid: StreamID, msg: Message) returns (r: Option<StreamID>)
      modifies this`currStream, Receiver(to)
      ensures r == if to !in scheds then None else if sid == 0 then Some(old(currStream)) else Some(sid)
      ensures currStream == if to in scheds && sid == 0 then old(currStream) + 1 else old(currStream)
      ensures to in scheds ==> scheds[to].now == old(scheds[to].now) && (old(scheds[to].Valid()) ==> scheds[to].Valid())
      ensures to in scheds ==> scheds[to].queue == old(scheds[to].queue) + [Of(to, Deliver(from, r.value, msg))]
    {
      hide SimpleScheduler.Valid;
      if to !in scheds {
        return None;
      }
      r := Some(sid);
      if sid == 0 {
        r := Some(currStream);
        currStream := currStream + 1;
      }
      scheds[to].EnqueueAction(Of(to, Deliver(from, r.value, msg)));
    }
  }

  class Endpoint {
    const self: Peer
    const sched: SimpleScheduler<Action>
    const router: Router
    var peerstore: map<Peer, NodeInfo>
    var connStatus: map<Peer, Connectedness>
    var streamFollowup: map<StreamID, Request>
    var streamTimeout: map<StreamID, TimedAction?<Action>>
    /** How many requests were made (this names the next handler), and the handlers invoked so far, in order. */
    var made: nat
    ghost var invoked: seq<Request>

    ghost predicate Valid()
      reads this, sched, sched.planner, sched.planner.spine, router
    {
      ValidBut({}) && Once()
    }

    /** Every request is accounted for once. */
    ghost predicate Once()
      reads this, sched
    {
      OncePerRequest(streamFollowup, InHand(), made)
    }

    /** The requests whose handler call is waiting or made. */
    ghost function InHand(): multiset<Request>
      reads this, sched
    {
      Calls(self, sched.queue) + multiset(invoked)
    }

    /** The same, with an action that has left the queue and not run yet. */
    ghost function InHandWith(a: Action): multiset<Request>
      reads this, sched
    {
      if IsCallOf(self, a) then InHand() + multiset{a.task.call.req} else InHand()
    }

    /** The rest of the invariant, the timeouts of the streams in loose aside. */
    ghost predicate ValidBut(loose: set<StreamID>)
      reads this, sched, sched.planner, sched.planner.spine, router
    {
      && sched.Valid()
      && Known(peerstore, connStatus)
      && Issued(streamFollowup, router.currStream)
      && streamTimeout.Keys <= streamFollowup.Keys
      && Armed(self, streamTimeout, sched.planner.spine, sched.queue, loose)
    }

    /** The scheduler may be in use by others already. */
    constructor (self: Peer, sched: SimpleScheduler<Action>, router: Router)
      requires sched.Valid() && router.currStream > 0
      requires forall i :: 0 <= i < |sched.queue| ==> !IsOf(self, sched.queue[i])
      requires forall x :: x in sched.planner.spine ==> !IsOf(self, x.action)
      ensures Valid() && this.self == self && this.sched == sched && this.router == router
      ensures peerstore == map[] && connStatus == map[]
      ensures streamFollowup == map[] && streamTimeout == map[] && made == 0 && invoked == []
    {
      NoCalls(self, sched.queue);
      this.self, this.sched, this.router := self, sched, router;
      peerstore, connStatus, streamFollowup, streamTimeout := map[], map[], map[], map[];
      made, invoked := 0, [];
    }

    /** Every request that waits for an answer has a timeout. */
    ghost predicate AllTimed()
      reads this
    {
      streamTimeout.Keys == streamFollowup.Keys
    }

    /** A peer is reachable once it is known. */
    method DialPeer(id: Peer) returns (ok: bool)
      requires Valid()
      modifies this`connStatus
      ensures Valid() && (ok <==> id in old(connStatus))
      ensures connStatus == if ok then old(connStatus)[id := Connected] else old(connStatus)
    {
      hide SimpleScheduler.Valid, Issued, Armed, OncePerRequest;
      ok := id in connStatus;
      if ok && connStatus[id] == CanConnect {
        connStatus := connStatus[id := Connected];
      }
    }

    method MaybeAddToPeerstore(info: NodeInfo)
      requires Valid()
      modifies this`peerstore, this`connStatus
      ensures Valid()
      ensures peerstore == if info.id in old(peerstore) then old(peerstore) else old(peerstore)[info.id := info]
      ensures connStatus == if info.id in old(connStatus) then old(connStatus)
        else old(connStatus)[info.id := CanConnect]
    {
      hide SimpleScheduler.Valid, Issued, Armed, OncePerRequest;
      if info.id !in peerstore {
        peerstore := peerstore[info.id := info];
      }
      if info.id !in connStatus {
        connStatus := connStatus[info.id := CanConnect];
      }
    }

    /** A message is sent through the router, by this endpoint or by another one, to this endpoint or to another
        one. Nobody's request is settled or lost by that. */
    method Transmit(from: Peer, to: Peer, sid: StreamID, msg: Message) returns (r: Option<StreamID>)
      requires Valid()
      modifies router`currStream, router.Receiver(to)
      ensures Valid() && sched.now == old(sched.now)
      ensures r == if to !in router.scheds then None else if sid == 0 then Some(old(router.currStream)) else Some(sid)
      ensures router.currStream == if r.Some? && sid == 0 then old(router.currStream) + 1 else old(router.currStream)
      ensures sched.queue == old(sched.queue) +
        if sched in router.Receiver(to) then [Of(to, Deliver(from, r.value, msg))] else []
      ensures to in router.scheds ==> old(router.scheds[to].Valid()) ==> router.scheds[to].Valid()
      ensures to in router.scheds ==>
        router.scheds[to].queue == old(router.scheds[to].queue) + [Of(to, Deliver(from, r.value, msg))]
    {
      hide SimpleScheduler.Valid, OncePerRequest, Calls, Known;
      ghost var q := sched.queue;
      r := router.SendMessage(from, to, sid, msg);
      if r.Some? {
        CallsAppend(self, q, Of(to, Deliver(from, r.value, msg)));
      }
    }

    /** Others that share the scheduler put work of their own into its queue. */
    method OthersEnqueue(a: Action)
      requires Valid() && !IsOf(self, a)
      modifies sched
      ensures Valid() && sched.queue == old(sched.queue) + [a]
    {
      hide SimpleScheduler.Valid, Known, Issued, OncePerRequest, Calls, Armed;
      Enqueue(a);
    }

    /** Others plan work of their own for later. */
    method OthersSchedule(t: Time, a: Action) returns (pa: TimedAction?<Action>)
      requires Valid() && !IsOf(self, a)
      modifies sched, sched.planner, sched.planner.spine
      ensures Valid() && (pa == null <==> sched.now > t)
      ensures sched.queue == old(sched.queue) + if pa == null then [a] else []
    {
      hide SimpleScheduler.Valid, Known, Issued, OncePerRequest, Calls;
      CallsAppend(self, sched.queue, a);
      pa := sched.ScheduleAction(t, a);
    }

    /** Others take planned work of their own out again. */
    method OthersRemove(pa: TimedAction<Action>) returns (ok: bool)
      requires Valid() && !IsOf(self, pa.action)
      modifies sched, sched.planner, sched.planner.spine
      ensures Valid() && sched.queue == old(sched.queue)
    {
      hide SimpleScheduler.Valid, Known, Issued, OncePerRequest, Calls;
      ok := sched.RemovePlannedAction(pa);
    }

    /** Time passes. */
    method Tick(t: Time)
      requires Valid() && t >= sched.now
      modifies sched`now
      ensures Valid() && sched.now == t
    {
      hide OncePerRequest, Calls, Known, Issued, Armed;
      sched.Tick(t);
    }

    /** Send request number made. A peer that is unknown here or to the router answers with an error at
        once; otherwise the request is delivered, the handler is kept for a fresh stream, and a timeout other than
        0 is armed. */
    method SendRequestHandleResponse(id: Peer, req: Message, timeout: int) returns (sid: Option<StreamID>)
      requires Valid()
      modifies this, router`currStream, router.Receiver(id), sched, sched.planner, sched.planner.spine
      ensures Valid() && made == old(made) + 1 && invoked == old(invoked)
      ensures sid.Some? <==> id in old(connStatus) && id in router.scheds
      ensures sid.None? ==> streamFollowup == old(streamFollowup) && streamTimeout == old(streamTimeout)
      ensures sid.None? ==> sched.queue == old(sched.queue) + [Of(self, CallHandler(Call(old(made), UnknownPeer)))]
      ensures sid.Some? ==>
        sid.value !in old(streamFollowup) && streamFollowup == old(streamFollowup)[sid.value := old(made)]
      ensures sid.Some? ==> streamTimeout.Keys == old(streamTimeout.Keys) + if timeout != 0 then {sid.value} else {}
      ensures sid.Some? ==> (
        var delivery := if router.scheds[id] == sched then [Of(id, Deliver(self, sid.value, req))] else [];
        var overdue := if timeout < 0 then [Of(self, StreamTimeout(sid.value))] else [];
        sched.queue == old(sched.queue) + delivery + overdue)
      ensures sid.Some? && router.scheds[id] != sched ==>
        router.scheds[id].queue == old(router.scheds[id].queue) + [Of(id, Deliver(self, sid.value, req))]
      ensures connStatus == if id in old(connStatus) then old(connStatus)[id := Connected] else old(connStatus)
      ensures peerstore == old(peerstore)
      ensures sid.Some? && timeout > 0 ==>
        sid.value in streamTimeout && streamTimeout[sid.value] != null
        && streamTimeout[sid.value].time == sched.now + timeout
      ensures old(AllTimed()) && timeout != 0 ==> AllTimed()
    {
      hide SimpleScheduler.Valid, Endpoint.Valid;
      sid := Dispatch(id, req);
      if sid.None? {
        Refuse();
      } else {
        Open(sid.value, timeout);
      }
    }

    /** Dial the peer and send it the request. */
    method Dispatch(id: Peer, req: Message) returns (sid: Option<StreamID>)
      requires Valid()
      modifies this`connStatus, router`currStream, router.Receiver(id)
      ensures Valid() && sched.now == old(sched.now)
      ensures sid.Some? <==> id in old(connStatus) && id in router.scheds
      ensures sid.Some? ==> sid.value !in streamFollowup && 0 < sid.value < router.currStream
      ensures connStatus == if id in old(connStatus) then old(connStatus)[id := Connected] else old(connStatus)
      ensures sched.queue ==
        if sid.Some? && router.scheds[id] == sched then old(sched.queue) + [Of(id, Deliver(self, sid.value, req))]
        else old(sched.queue)
      ensures sid.Some? ==>
        router.scheds[id].queue == old(router.scheds[id].queue) + [Of(id, Deliver(self, sid.value, req))]
    {
      hide SimpleScheduler.Valid, OncePerRequest, Calls, Armed;
      var ok := DialPeer(id);
      sid := None;
      if ok {
        var addr := peerstore[id];
        assert addr.id == id;
        assert router.currStream !in streamFollowup && router.currStream > 0;
        hide Known, Issued;
        sid := Transmit(self, addr.id, 0, req);
      }
    }

    /** Queue the error call of a request that could not be sent. */
    method Refuse()
      requires Valid()
      modifies this`made, sched
      ensures Valid() && made == old(made) + 1
      ensures sched.queue == old(sched.queue) + [Of(self, CallHandler(Call(old(made), UnknownPeer)))]
    {
      hide SimpleScheduler.Valid, OncePerRequest, Calls, Armed, Known, Issued;
      OnceAfterRefusal(streamFollowup, InHand(), made);
      Enqueue(Of(self, CallHandler(Call(made, UnknownPeer))));
      made := made + 1;
    }

    /** Keep the handler for stream sid and arm its timeout. */
    method Open(sid: StreamID, timeout: int)
      requires Valid() && sid !in streamFollowup && 0 < sid < router.currStream
      modifies this`made, this`streamFollowup, this`streamTimeout, sched, sched.planner, sched.planner.spine
      ensures Valid() && made == old(made) + 1
      ensures streamFollowup == old(streamFollowup)[sid := old(made)]
      ensures sched.queue == old(sched.queue) + if timeout < 0 then [Of(self, StreamTimeout(sid))] else []
      ensures streamTimeout.Keys == old(streamTimeout.Keys) + if timeout != 0 then {sid} else {}
      ensures timeout > 0 ==>
        sid in streamTimeout && streamTimeout[sid] != null && streamTimeout[sid].time == sched.now + timeout
    {
      hide SimpleScheduler.Valid, OncePerRequest, Calls, Armed, Known;
      OnceAfterSend(streamFollowup, InHand(), made, sid);
      streamFollowup := streamFollowup[sid := made];
      made := made + 1;
      hide Issued;
      if timeout != 0 {
        Arm(sid, timeout);
      }
    }

    /** Put an action in the queue; the invariants that do not count calls are not affected. */
    method Enqueue(a: Action)
      requires ValidBut({})
      modifies sched
      ensures ValidBut({}) && sched.queue == old(sched.queue) + [a] && sched.now == old(sched.now)
      ensures InHand() == if IsCallOf(self, a) then old(InHand()) + multiset{a.task.call.req} else old(InHand())
    {
      hide SimpleScheduler.Valid, Known, Issued, OncePerRequest, Calls;
      CallsAppend(self, sched.queue, a);
      sched.EnqueueAction(a);
    }

    /** Schedule the timeout of a stream. A negative delay goes straight to the queue. */
    method Arm(sid: StreamID, timeout: int)
      requires ValidBut({}) && sid in streamFollowup && sid !in streamTimeout
      modifies this`streamTimeout, sched, sched.planner, sched.planner.spine
      ensures ValidBut({}) && streamTimeout.Keys == old(streamTimeout.Keys) + {sid}
      ensures InHand() == old(InHand())
      ensures sched.queue == old(sched.queue) + if timeout <= 0 then [Of(self, StreamTimeout(sid))] else []
      ensures timeout > 0 ==> streamTimeout[sid] != null && streamTimeout[sid].time == sched.now + timeout
    {
      hide SimpleScheduler.Valid, Known, Issued, OncePerRequest, Calls;
      var a := Of(self, StreamTimeout(sid));
      if timeout <= 0 {
        Enqueue(a);
        streamTimeout := streamTimeout[sid := null];
      } else {
        var h := sched.ScheduleAction(sched.now + timeout, a);
        streamTimeout := streamTimeout[sid := h];
      }
    }

    /** Remember the nodes of a response as reachable. */
    method Learn(closer: seq<NodeInfo>)
      requires ValidBut({})
      modifies this`peerstore, this`connStatus
      ensures ValidBut({})
      ensures peerstore == Stored(old(peerstore), closer) && connStatus == Reachable(old(connStatus), closer)
    {
      hide SimpleScheduler.Valid, Issued, OncePerRequest, Calls, Armed;
      for i := 0 to |closer|
        invariant Known(peerstore, connStatus)
        invariant peerstore == Stored(old(peerstore), closer[..i])
        invariant connStatus == Reachable(old(connStatus), closer[..i])
      {
        assert closer[..i + 1][..i] == closer[..i];
        peerstore := peerstore[closer[i].id := closer[i]];
        connStatus := connStatus[closer[i].id := CanConnect];
      }
      assert closer[..|closer|] == closer;
    }

    /** What a reply puts into scheduler s: the reply, if s is where its addressee's messages go. */
    ghost function ReplyTo(s: SimpleScheduler<Action>, reply: Option<Action>): seq<Action>
      reads router
    {
      if reply.Some? && reply.value.Of? && reply.value.owner in router.scheds && router.scheds[reply.value.owner] == s
      then [reply.value] else []
    }

    /** The other schedulers get the reply, and nothing else. */
    twostate predicate Replied(new reply: Option<Action>)
      reads router, router.scheds.Values
    {
      && router.scheds == old(router.scheds)
      && forall s :: s in old(router.scheds).Values && s != sched ==> s.queue == old(s.queue) + ReplyTo(s, reply)
    }

    /** The tables are as a task leaves them. */
    twostate predicate Settled(new fx: Effect)
      reads this
    {
      && streamFollowup == old(streamFollowup) - fx.ended && streamTimeout == old(streamTimeout) - fx.ended
      && peerstore == Stored(old(peerstore), fx.named) && connStatus == Reachable(old(connStatus), fx.named)
    }

    /** A task has been done: the queue, the call made, the tables and the other schedulers are as it leaves them. */
    twostate predicate Did(new task: Task, new answer: Option<Message>, new called: Option<Call>)
      reads this, sched, router, router.scheds.Values
    {
      var fx := EffectOf(self, Some(task), old(streamFollowup), old(router.currStream), answer);
      && sched.queue == old(sched.queue) + fx.calls + ReplyTo(sched, fx.reply)
      && called == fx.called && Settled(fx) && Replied(fx.reply)
    }

    /** A message for a stream with a handler claims the handler: its timeout is disarmed and its call queued. Any
        other message is a request: what the request handler for it answers, if there is one and it succeeds, goes
        back to the sender on the same stream. */
    method HandleMessage(from: Peer, sid: StreamID, msg: Message, answer: Option<Message>)
      requires Valid()
      modifies this, router`currStream, router.Receiver(from), sched, sched.planner, sched.planner.spine
      ensures Valid() && made == old(made) && invoked == old(invoked)
      ensures streamFollowup == old(streamFollowup) - {sid} && streamTimeout == old(streamTimeout) - {sid}
      ensures Did(Deliver(from, sid, msg), answer, None)
      ensures peerstore == if sid in old(streamFollowup) && msg.Response? then Stored(old(peerstore), msg.closer)
        else old(peerstore)
      ensures connStatus == if sid in old(streamFollowup) && msg.Response? then Reachable(old(connStatus), msg.closer)
        else old(connStatus)
      ensures old(AllTimed()) ==> AllTimed()
    {
      hide SimpleScheduler.Valid, Endpoint.Valid, Stored, Reachable;
      NothingNamed(peerstore, connStatus);
      if sid in streamFollowup {
        TakeReply(sid, msg);
      } else {
        NoFollowup(sid);
        if answer.Some? {
          var _ := Transmit(self, from, sid, answer.value);
        }
      }
    }

    lemma NoFollowup(sid: StreamID)
      requires Valid() && sid !in streamFollowup
      ensures streamFollowup - {sid} == streamFollowup && streamTimeout - {sid} == streamTimeout
    {
      hide SimpleScheduler.Valid, OncePerRequest, Calls, Armed, Known, Issued;
    }

    /** A message for a stream with a handler. */
    method TakeReply(sid: StreamID, msg: Message)
      requires Valid() && sid in streamFollowup
      modifies this, sched, sched.planner, sched.planner.spine
      ensures Valid() && made == old(made) && invoked == old(invoked)
      ensures streamFollowup == old(streamFollowup) - {sid} && streamTimeout == old(streamTimeout) - {sid}
      ensures peerstore == if msg.Response? then Stored(old(peerstore), msg.closer) else old(peerstore)
      ensures connStatus == if msg.Response? then Reachable(old(connStatus), msg.closer) else old(connStatus)
      ensures var call := Call(old(streamFollowup)[sid], if msg.Response? then Reply else InvalidReply);
        sched.queue == old(sched.queue) + [Of(self, CallHandler(call))]
    {
      hide SimpleScheduler.Valid, OncePerRequest, Calls, Armed, Known, Issued;
      var followup := streamFollowup[sid];
      Claim(sid);
      if msg.Response? {
        Learn(msg.closer);
      }
      hide Stored, Reachable;
      Enqueue(Of(self, CallHandler(Call(followup, if msg.Response? then Reply else InvalidReply))));
    }

    /** Take the handler of a stream out of the tables: its request is now accounted for by the caller. */
    method Claim(sid: StreamID)
      requires Valid() && sid in streamFollowup
      modifies this`streamFollowup, this`streamTimeout, sched, sched.planner, sched.planner.spine
      ensures ValidBut({}) && OncePerRequest(streamFollowup, InHand() + multiset{old(streamFollowup)[sid]}, made)
      ensures streamFollowup == old(streamFollowup) - {sid} && streamTimeout == old(streamTimeout) - {sid}
      ensures sched.queue == old(sched.queue)
    {
      hide SimpleScheduler.Valid, OncePerRequest, Calls, Armed, Known;
      OnceAfterClaim(streamFollowup, InHand(), made, sid);
      Disarm(sid);
      streamFollowup := streamFollowup - {sid};
    }

    /** Forget the timeout of a stream, taking it out of the planner if it is still there. */
    method Disarm(sid: StreamID)
      requires ValidBut({})
      modifies this`streamTimeout, sched, sched.planner, sched.planner.spine
      ensures ValidBut({}) && streamTimeout == old(streamTimeout) - {sid}
      ensures sched.queue == old(sched.queue) && sched.now == old(sched.now)
    {
      hide SimpleScheduler.Valid, OncePerRequest, Calls, Known, Issued;
      ghost var spine := sched.planner.spine;
      if sid in streamTimeout && streamTimeout[sid] != null {
        var _ := sched.RemovePlannedAction(streamTimeout[sid]);
      }
      ArmedWithout(self, streamTimeout, spine, sched.queue, sid, sched.planner.spine);
      hide Armed;
      streamTimeout := streamTimeout - {sid};
    }

    /** The timeout of a stream runs: it claims the handler if no message has, and invokes it. */
    method TimeOut(sid: StreamID, ghost answer: Option<Message>) returns (called: Option<Call>)
      requires ValidBut({sid}) && Once()
      modifies this`streamFollowup, this`streamTimeout, this`invoked
      ensures Valid() && made == old(made)
      ensures streamFollowup == old(streamFollowup) - {sid} && streamTimeout == old(streamTimeout) - {sid}
      ensures called == if sid in old(streamFollowup) then Some(Call(old(streamFollowup)[sid], TimedOut)) else None
      ensures invoked == old(invoked) + if called.Some? then [called.value.req] else []
      ensures called.Some? ==> called.value.req !in old(invoked) && called.value.req < made
      ensures Did(StreamTimeout(sid), answer, called)
    {
      hide SimpleScheduler.Valid, OncePerRequest, Calls, Known, Issued, Armed, Stored, Reachable;
      NothingNamed(peerstore, connStatus);
      called := None;
      if sid in streamFollowup {
        OnceAfterInvoke(streamFollowup, Calls(self, sched.queue), invoked, made, sid);
        called := Some(Call(streamFollowup[sid], TimedOut));
        invoked := invoked + [streamFollowup[sid]];
      }
      Forget(sid);
    }

    /** Nothing is kept for a stream any more. */
    method Forget(sid: StreamID)
      requires ValidBut({sid})
      modifies this`streamFollowup, this`streamTimeout
      ensures ValidBut({}) && streamFollowup == old(streamFollowup) - {sid}
      ensures streamTimeout == old(streamTimeout) - {sid}
      ensures sid !in old(streamFollowup) ==> streamFollowup == old(streamFollowup)
    {
      hide SimpleScheduler.Valid, Known;
      ArmedWithout(self, streamTimeout, sched.planner.spine, sched.queue, sid, sched.planner.spine);
      hide Armed;
      assert sid !in streamFollowup ==> streamFollowup - {sid} == streamFollowup;
      streamFollowup, streamTimeout := streamFollowup - {sid}, streamTimeout - {sid};
    }

    /** The task of this endpoint that an action is, if it is one. */
    function OwnTask(action: Option<Action>): Option<Task> {
      if action.Some? && IsOf(self, action.value) then Some(action.value.task) else None
    }

    /** Run one action of the scheduler, if there is one: the front of the queue, after the n planned actions that
        are due have joined it. An action of others does not change anything here. At most one handler is invoked,
        and never one that has been invoked before. answer is what the request handler makes of a message that is a
        request. */
    method RunOne(answer: Option<Message>) returns (action: Option<Action>, called: Option<Call>, ghost n: nat)
      requires Valid()
      modifies this, sched, sched.planner, sched.planner.spine, router`currStream, router.scheds.Values
      ensures Valid() && made == old(made)
      ensures invoked == old(invoked) + if called.Some? then [called.value.req] else []
      ensures called.Some? ==> called.value.req !in old(invoked) && called.value.req < made
      ensures n <= |old(sched.planner.spine)| && forall i :: 0 <= i < |old(sched.planner.spine)| ==>
        (i < n <==> old(sched.planner.spine)[i].time <= old(sched.now))
      ensures action.None? ==> forall x :: x in sched.planner.spine ==> x.time > sched.now
      ensures var work := old(sched.queue) + Actions(old(sched.planner.spine)[..n]);
        var fx := EffectOf(self, OwnTask(action), old(streamFollowup), old(router.currStream), answer);
        && action == (if work == [] then None else Some(work[0]))
        && sched.queue == (if work == [] then [] else work[1..]) + fx.calls + ReplyTo(sched, fx.reply)
        && called == fx.called && Settled(fx) && Replied(fx.reply)
      ensures old(AllTimed()) ==> AllTimed()
    {
      hide SimpleScheduler.Valid, Calls, Known, Issued, Armed, OncePerRequest;
      called := None;
      action, n := Next();
      hide Endpoint.ValidBut, Endpoint.InHand;
      assert forall x :: x in sched.planner.spine ==> x in old(sched.planner.spine);
      if action.Some? && IsOf(self, action.value) {
        called := Perform(action.value.task, answer);
      }
    }

    /** Do a task of this endpoint. */
    method Perform(task: Task, answer: Option<Message>) returns (called: Option<Call>)
      requires ValidBut(Loosened(self, Of(self, task)))
      requires OncePerRequest(streamFollowup, InHandWith(Of(self, task)), made)
      modifies this, sched, sched.planner, sched.planner.spine, router`currStream, router.scheds.Values
      ensures Valid() && made == old(made)
      ensures invoked == old(invoked) + if called.Some? then [called.value.req] else []
      ensures called.Some? ==> called.value.req !in old(invoked) && called.value.req < made
      ensures Did(task, answer, called)
      ensures old(AllTimed()) ==> AllTimed()
    {
      hide SimpleScheduler.Valid, Calls, Known, Issued, Armed, OncePerRequest, Endpoint.Did;
      called := None;
      match task
      case CallHandler(call) =>
        MakeCall(call, answer);
        called := Some(call);
      case StreamTimeout(sid) =>
        called := TimeOut(sid, answer);
      case Deliver(from, sid, msg) =>
        HandleMessage(from, sid, msg, answer);
    }

    /** Call a response handler. */
    method MakeCall(call: Call, ghost answer: Option<Message>)
      requires ValidBut({}) && OncePerRequest(streamFollowup, InHandWith(Of(self, CallHandler(call))), made)
      modifies this`invoked
      ensures Valid() && invoked == old(invoked) + [call.req] && call.req !in old(invoked) && call.req < made
      ensures Did(CallHandler(call), answer, Some(call))
    {
      hide SimpleScheduler.Valid, Calls, Known, Issued, Armed, OncePerRequest, Stored, Reachable;
      NothingNamed(peerstore, connStatus);
      assert streamFollowup - {} == streamFollowup && streamTimeout - {} == streamTimeout;
      OnceAfterCall(streamFollowup, Calls(self, sched.queue), invoked, made, call.req);
      invoked := invoked + [call.req];
    }

    /** Take the next action to run: it is the only thing that leaves the queue. */
    method Next() returns (action: Option<Action>, ghost n: nat)
      requires ValidBut({})
      modifies sched, sched.planner
      ensures ValidBut(if action.Some? then Loosened(self, action.value) else {})
      ensures old(InHand()) == if action.Some? then InHandWith(action.value) else InHand()
      ensures n <= |old(sched.planner.spine)| && sched.planner.spine == old(sched.planner.spine)[n..]
      ensures forall i :: 0 <= i < |old(sched.planner.spine)| ==>
        (i < n <==> old(sched.planner.spine)[i].time <= sched.now)
      ensures sched.now == old(sched.now)
      ensures var work := old(sched.queue) + Actions(old(sched.planner.spine)[..n]);
        && action == (if work == [] then None else Some(work[0]))
        && sched.queue == if work == [] then [] else work[1..]
      ensures action.None? ==> sched.queue == [] && forall x :: x in sched.planner.spine ==> x.time > sched.now
    {
      hide SimpleScheduler.Valid;
      ghost var q, s := sched.queue, sched.planner.spine;
      action, n := sched.RunOne();
      ArmedAfterNext(self, streamTimeout, s, q, n);
      CallsAfterNext(self, streamTimeout, s, q, n);
      hide Armed;
    }

    /** With a timeout for every request: once none of its tasks is in the queue and none of its timeouts planned,
        every request made has had its handler invoked exactly once. */
    lemma AllAnswered()
      requires Valid() && AllTimed()
      requires forall i :: 0 <= i < |sched.queue| ==> !IsOf(self, sched.queue[i])
      requires forall x :: x in sched.planner.spine ==> !IsTimeoutOf(self, x.action)
      ensures streamFollowup == map[]
      ensures forall r: Request :: multiset(invoked)[r] == if r < made then 1 else 0
    {
      assert forall s :: s in streamTimeout ==> false;
      assert streamFollowup == map[];
      EveryRequestAnswered(self, sched.queue, invoked, made);
    }
  }
}
