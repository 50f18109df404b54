/** The scheduler: a planner for later and a first-in-first-out queue for now. */
module Schedulers {
  import opened Options
  import opened Times
  import opened Planners

  /** An action together with the time it was due. Actions put straight into the queue are due at once. */
  datatype Timed<A> = Timed(action: A, due: Time)

  ghost function Plan<A>(spine: seq<TimedAction<A>>): (r: seq<Timed<A>>)
    ensures |r| == |spine| && forall i :: 0 <= i < |spine| ==> r[i] == Timed(spine[i].action, spine[i].time)
  {
    seq(|spine|, i requires 0 <= i < |spine| => Timed(spine[i].action, spine[i].time))
  }

  ghost function Actions<A>(spine: seq<TimedAction<A>>): (r: seq<A>)
    ensures |r| == |spine| && forall i :: 0 <= i < |spine| ==> r[i] == spine[i].action
  {
    seq(|spine|, i requires 0 <= i < |spine| => spine[i].action)
  }

  lemma PlanInsert<A>(spine: seq<TimedAction<A>>, p: nat, x: TimedAction<A>)
    requires p <= |spine|
    ensures multiset(Plan(spine[..p] + [x] + spine[p..])) == multiset(Plan(spine)) + multiset{Timed(x.action, x.time)}
  {
    var t := Timed(x.action, x.time);
    assert Plan(spine[..p] + [x] + spine[p..]) == Plan(spine)[..p] + [t] + Plan(spine)[p..];
    assert Plan(spine) == Plan(spine)[..p] + Plan(spine)[p..];
  }

  lemma InsertMembers<A>(spine: seq<TimedAction<A>>, p: nat, x: TimedAction<A>)
    requires p <= |spine|
    ensures var r := spine[..p] + [x] + spine[p..]; forall y :: y in r <==> y == x || y in spine
  {
    assert spine == spine[..p] + spine[p..];
  }

  lemma PlanSplit<A>(spine: seq<TimedAction<A>>, n: nat)
    requires n <= |spine|
    ensures multiset(Plan(spine)) == multiset(Plan(spine[..n])) + multiset(Plan(spine[n..]))
  {
    assert Plan(spine) == Plan(spine[..n]) + Plan(spine[n..]);
  }

  lemma PlanRemove<A>(spine: seq<TimedAction<A>>, p: nat)
    requires p < |spine|
    ensures multiset(Plan(spine)) ==
      multiset(Plan(spine[..p] + spine[p + 1..])) + multiset{Timed(spine[p].action, spine[p].time)}
  {
    var r := spine[..p] + spine[p + 1..];
    PlanInsert(r, p, spine[p]);
    assert r[..p] + [spine[p]] + r[p..] == spine;
  }

  lemma SpineDistinct<A>(p: SimplePlanner<A>)
    requires p.Valid()
    ensures forall i, j :: 0 <= i < j < |p.spine| ==> p.spine[i] != p.spine[j]
  {}

  /** rest holds what spine holds, but for x. */
  ghost predicate HoldsAllBut<A>(rest: seq<TimedAction<A>>, spine: seq<TimedAction<A>>, x: TimedAction<A>) {
    (forall y :: y in rest ==> y in spine && y != x) && forall y :: y in spine && y != x ==> y in rest
  }

  lemma RemoveMembers<A>(spine: seq<TimedAction<A>>, p: nat)
    requires p < |spine| && forall i, j :: 0 <= i < j < |spine| ==> spine[i] != spine[j]
    ensures HoldsAllBut(spine[..p] + spine[p + 1..], spine, spine[p])
  {
    var r := spine[..p] + spine[p + 1..];
    assert forall i :: 0 <= i < |r| ==> r[i] == spine[if i < p then i else i + 1];
    assert forall i :: 0 <= i < |spine| && i != p ==> spine[i] == r[if i < p then i else i - 1];
  }

  /** Everything handed in is in exactly one place: planned, queued, run or removed. */
  ghost predicate Accounted<A>(all: multiset<Timed<A>>, spine: seq<TimedAction<A>>, queued: seq<Timed<A>>,
                               ran: seq<Timed<A>>, removed: multiset<Timed<A>>) {
    all == multiset(Plan(spine)) + multiset(queued) + multiset(ran) + removed
  }

  lemma AccountedQueue<A>(all: multiset<Timed<A>>, spine: seq<TimedAction<A>>, queued: seq<Timed<A>>,
                          ran: seq<Timed<A>>, removed: multiset<Timed<A>>, t: Timed<A>)
    requires Accounted(all, spine, queued, ran, removed)
    ensures Accounted(all + multiset{t}, spine, queued + [t], ran, removed)
  {
    hide Plan;
  }

  lemma AccountedPlan<A>(all: multiset<Timed<A>>, spine: seq<TimedAction<A>>, queued: seq<Timed<A>>,
                         ran: seq<Timed<A>>, removed: multiset<Timed<A>>, p: nat, x: TimedAction<A>)
    requires Accounted(all, spine, queued, ran, removed) && p <= |spine|
    ensures Accounted(all + multiset{Timed(x.action, x.time)}, spine[..p] + [x] + spine[p..], queued, ran, removed)
  {
    PlanInsert(spine, p, x);
    hide Plan;
  }

  lemma AccountedRemove<A>(all: multiset<Timed<A>>, spine: seq<TimedAction<A>>, queued: seq<Timed<A>>,
                           ran: seq<Timed<A>>, removed: multiset<Timed<A>>, p: nat)
    requires Accounted(all, spine, queued, ran, removed) && p < |spine|
    ensures Accounted(all, spine[..p] + spine[p + 1..], queued, ran,
                      removed + multiset{Timed(spine[p].action, spine[p].time)})
  {
    PlanRemove(spine, p);
    hide Plan;
  }

  lemma AccountedMove<A>(all: multiset<Timed<A>>, spine: seq<TimedAction<A>>, queued: seq<Timed<A>>,
                         ran: seq<Timed<A>>, removed: multiset<Timed<A>>, n: nat)
    requires Accounted(all, spine, queued, ran, removed) && n <= |spine|
    ensures Accounted(all, spine[n..], queued + Plan(spine[..n]), ran, removed)
  {
    PlanSplit(spine, n);
    hide Plan;
  }

  lemma AccountedRun<A>(all: multiset<Timed<A>>, spine: seq<TimedAction<A>>, queued: seq<Timed<A>>,
                        ran: seq<Timed<A>>, removed: multiset<Timed<A>>)
    requires Accounted(all, spine, queued, ran, removed) && queued != []
    ensures Accounted(all, spine, queued[1..], ran + [queued[0]], removed)
  {
    hide Plan;
    assert queued == [queued[0]] + queued[1..];
  }

  class SimpleScheduler<A> {
    /** The reading of the clock, which only moves forward. */
    var now: Time
    var queue: seq<A>
    const planner: SimplePlanner<A>
    /** What the queue holds, with due times; everything ever handed in; what ran, in order; what was
        removed from the planner. */
    ghost var queued: seq<Timed<A>>
    ghost var scheduled: multiset<Timed<A>>
    ghost var ran: seq<Timed<A>>
    ghost var removed: multiset<Timed<A>>

    ghost predicate Valid()
      reads this, planner, planner.spine
    {
      && planner.Valid()
      && |queued| == |queue| && (forall i :: 0 <= i < |queue| ==> queued[i].action == queue[i] && queued[i].due <= now)
      && (forall i :: 0 <= i < |ran| ==> ran[i].due <= now)
      && Conserved()
    }

    ghost predicate Conserved()
      reads this, planner
    {
      Accounted(scheduled, planner.spine, queued, ran, removed)
    }

    constructor (start: Time)
      ensures Valid() && now == start && queue == [] && planner.spine == [] && scheduled == multiset{} && ran == []
    {
      now, queue := start, [];
      planner := new SimplePlanner<A>();
      queued, scheduled, ran, removed := [], multiset{}, [], multiset{};
    }

    /** Time passes. */
    method Tick(t: Time)
      requires Valid() && t >= now
      modifies this`now
      ensures Valid() && now == t
    {
      now := t;
    }

    /** Put an action into the queue; it is due at once. */
    method EnqueueAction(a: A)
      modifies this
      ensures old(Valid()) ==> Valid()
      ensures now == old(now) && queue == old(queue) + [a] && ran == old(ran) && removed == old(removed)
      ensures scheduled == old(scheduled) + multiset{Timed(a, now)}
    {
      hide SimplePlanner.Valid, Accounted;
      if Conserved() {
        AccountedQueue(scheduled, planner.spine, queued, ran, removed, Timed(a, now));
      }
      queue := queue + [a];
      queued := queued + [Timed(a, now)];
      scheduled := scheduled + multiset{Timed(a, now)};
    }

    /** Put an action that is due into the queue. */
    method EnqueueDue(a: A, ghost due: Time)
      requires Valid() && due <= now
      modifies this
      ensures Valid() && now == old(now)
      ensures queue == old(queue) + [a] && queued == old(queued) + [Timed(a, due)] && ran == old(ran)
      ensures removed == old(removed)
      ensures scheduled == old(scheduled) + multiset{Timed(a, due)}
    {
      hide SimplePlanner.Valid, Accounted;
      AccountedQueue(scheduled, planner.spine, queued, ran, removed, Timed(a, due));
      queue := queue + [a];
      queued := queued + [Timed(a, due)];
      scheduled := scheduled + multiset{Timed(a, due)};
    }

    /** Plan an action for time t, or queue it if t has passed; the handle is for removing it later. */
    method ScheduleAction(t: Time, a: A) returns (pa: TimedAction?<A>)
      requires Valid()
      modifies this, planner, planner.spine
      ensures Valid() && now == old(now) && ran == old(ran) && removed == old(removed)
      ensures scheduled == old(scheduled) + multiset{Timed(a, t)}
      ensures pa == null <==> now > t
      ensures now > t ==> queue == old(queue) + [a] && planner.spine == old(planner.spine)
      ensures pa != null ==> fresh(pa) && pa.action == a && pa.time == t && queue == old(queue)
      ensures pa != null ==> forall x :: x in planner.spine <==> x == pa || x in old(planner.spine)
    {
      if now > t {
        EnqueueDue(a, t);
        return null;
      }
      pa := PlanAction(t, a);
    }

    /** Hand an action to the planner. */
    method PlanAction(t: Time, a: A) returns (pa: TimedAction<A>)
      requires Valid()
      modifies this`scheduled, planner, planner.spine
      ensures Valid() && scheduled == old(scheduled) + multiset{Timed(a, t)}
      ensures fresh(pa) && pa.action == a && pa.time == t
      ensures forall x :: x in planner.spine <==> x == pa || x in old(planner.spine)
    {
      hide InsertPosition, SimplePlanner.Valid, Accounted;
      ghost var s := planner.spine;
      pa := planner.ScheduleAction(t, a);
      AccountedPlan(scheduled, s, queued, ran, removed, InsertPosition(s, t), pa);
      InsertMembers(s, InsertPosition(s, t), pa);
      scheduled := scheduled + multiset{Timed(a, t)};
    }

    /** Drop an action that is still planned; one already in the queue is not affected. */
    method RemovePlannedAction(pa: TimedAction<A>) returns (ok: bool)
      requires Valid()
      modifies this, planner, planner.spine
      ensures Valid() && now == old(now) && queue == old(queue) && ran == old(ran) && scheduled == old(scheduled)
      ensures ok <==> pa in old(planner.spine)
      ensures removed == if ok then old(removed) + multiset{Timed(pa.action, pa.time)} else old(removed)
      ensures HoldsAllBut(planner.spine, old(planner.spine), pa)
    {
      SpineDistinct(planner);
      assert pa !in planner.spine ==> HoldsAllBut(planner.spine, planner.spine, pa);
      hide SimplePlanner.Valid, Accounted, HoldsAllBut;
      ghost var s := planner.spine;
      ghost var pos;
      ok, pos := planner.RemoveAction(pa);
      if ok {
        RemoveMembers(s, pos);
        AccountedRemove(scheduled, s, queued, ran, removed, pos);
        removed := removed + multiset{Timed(pa.action, pa.time)};
      }
    }

    /** Everything planned that is due moves to the end of the queue, soonest first. */
    method MoveOverdueActions() returns (ghost n: nat)
      requires Valid()
      modifies this, planner
      ensures Valid() && now == old(now) && ran == old(ran) && removed == old(removed) && scheduled == old(scheduled)
      ensures forall i :: 0 <= i < |planner.spine| ==> planner.spine[i].time > now
      ensures n <= |old(planner.spine)| && planner.spine == old(planner.spine)[n..]
      ensures forall i :: 0 <= i < n ==> old(planner.spine)[i].time <= now
      ensures queue == old(queue) + Actions(old(planner.spine)[..n])
    {
      hide SimplePlanner.Valid, Accounted;
      ghost var s := planner.spine;
      var overdue;
      overdue, n := planner.PopOverdueActions(now);
      AccountedMove(scheduled, s, queued, ran, removed, n);
      assert overdue == Actions(s[..n]);
      queue := queue + overdue;
      queued := queued + Plan(s[..n]);
    }

    /** Run the action at the front of the queue, after the n planned actions that are due have joined it.
        Nothing runs before it is due. */
    method RunOne() returns (action: Option<A>, ghost n: nat)
      requires Valid()
      modifies this, planner
      ensures Valid() && now == old(now) && removed == old(removed) && scheduled == old(scheduled)
      ensures n <= |old(planner.spine)| && planner.spine == old(planner.spine)[n..]
      ensures forall i :: 0 <= i < |planner.spine| ==> planner.spine[i].time > now
      ensures forall i :: 0 <= i < n ==> old(planner.spine)[i].time <= now
      ensures var work := old(queue) + Actions(old(planner.spine)[..n]);
        if work == [] then action == None && queue == [] && ran == old(ran)
        else (
          && action == Some(work[0]) && queue == work[1..]
          && |ran| == |old(ran)| + 1 && ran[..|old(ran)|] == old(ran)
          && ran[|old(ran)|].action == work[0] && ran[|old(ran)|].due <= now)
    {
      n := MoveOverdueActions();
      if queue == [] {
        return None, n;
      }
      action := Some(queue[0]);
      Dequeue();
    }

    /** Take the front of the queue to run it. */
    method Dequeue()
      requires Valid() && queue != []
      modifies this
      ensures Valid() && now == old(now) && removed == old(removed) && scheduled == old(scheduled)
      ensures queue == old(queue)[1..] && ran == old(ran) + [old(queued)[0]]
    {
      hide SimplePlanner.Valid, Accounted;
      AccountedRun(scheduled, planner.spine, queued, ran, removed);
      ran := ran + [queued[0]];
      queue, queued := queue[1..], queued[1..];
    }

    /** When there is next something to run: now if the queue has work, else the soonest planned time. */
    method NextActionTime() returns (t: Option<Time>)
      requires Valid()
      modifies this, planner
      ensures Valid() && now == old(now) && scheduled == old(scheduled) && ran == old(ran) && removed == old(removed)
      ensures queue != [] ==> t == Some(now)
      ensures queue == [] && planner.spine == [] ==> t == None
      ensures queue == [] && planner.spine != [] ==> t == Some(planner.spine[0].time) && t.value > now
    {
      ghost var n := MoveOverdueActions();
      if queue != [] {
        return Some(now);
      }
      t := planner.NextActionTime();
    }
  }
}
