/** The planner: actions with a due time in a singly linked list, soonest first. */
module Planners {
  import opened Options
  import opened Times

  class TimedAction<A> {
    const action: A
    const time: Time
    var next: TimedAction?<A>

    constructor (action: A, time: Time, next: TimedAction?<A>)
      ensures this.action == action && this.time == time && this.next == next
    {
      this.action, this.time, this.next := action, time, next;
    }
  }

  /** head is a list through exactly the nodes of spine, in order. */
  ghost predicate Linked<A>(head: TimedAction?<A>, spine: seq<TimedAction<A>>)
    reads spine
  {
    && (forall i, j :: 0 <= i < j < |spine| ==> spine[i] != spine[j])
    && head == At(spine, 0)
    && (forall i {:trigger spine[i].next} :: 0 <= i < |spine| ==> spine[i].next == At(spine, i + 1))
  }

  ghost function At<A>(spine: seq<TimedAction<A>>, i: nat): TimedAction?<A> {
    if i < |spine| then spine[i] else null
  }

  ghost predicate Sorted<A>(spine: seq<TimedAction<A>>) {
    forall i, j :: 0 <= i < j < |spine| ==> spine[i].time <= spine[j].time
  }

  /** How many actions at the front are due strictly before t. */
  ghost function DueBefore<A>(spine: seq<TimedAction<A>>, t: Time): (n: nat)
    ensures n <= |spine|
    ensures forall i :: 0 <= i < n ==> spine[i].time < t
    ensures n < |spine| ==> spine[n].time >= t
  {
    if spine == [] || spine[0].time >= t then 0 else
    var n := 1 + DueBefore(spine[1..], t);
    assert forall i :: 1 <= i < |spine| ==> spine[i] == spine[1..][i - 1];
    n
  }

  /** Where a new action due at t goes: to the front if it is due before everything, else after the first
      action and everything due strictly before it. Among equal times it therefore comes first, except
      that it never overtakes the head of the list. */
  ghost function InsertPosition<A>(spine: seq<TimedAction<A>>, t: Time): (p: nat)
    ensures p <= |spine|
  {
    if spine == [] || t < spine[0].time then 0 else 1 + DueBefore(spine[1..], t)
  }

  lemma InsertKeepsOrder<A>(spine: seq<TimedAction<A>>, x: TimedAction<A>)
    requires Sorted(spine)
    ensures var p := InsertPosition(spine, x.time); Sorted(spine[..p] + [x] + spine[p..])
  {
    var p := InsertPosition(spine, x.time);
    if spine != [] && x.time >= spine[0].time {
      assert forall i :: 1 <= i < |spine| ==> spine[i] == spine[1..][i - 1];
    }
  }

  /** How many planned actions are due at t or before. */
  ghost function DueBy<A>(spine: seq<TimedAction<A>>, t: Time): nat {
    if spine == [] then 0 else (if spine[0].time <= t then 1 else 0) + DueBy(spine[1..], t)
  }

  lemma {:induction false} NoneDueBy<A>(spine: seq<TimedAction<A>>, t: Time)
    requires forall i :: 0 <= i < |spine| ==> spine[i].time > t
    ensures DueBy(spine, t) == 0
  {
    if spine != [] {
      NoneDueBy(spine[1..], t);
    }
  }

  lemma {:induction false} DueByBefore<A>(spine: seq<TimedAction<A>>, t: Time)
    requires Sorted(spine)
    ensures DueBefore(spine, t) <= DueBy(spine, t)
    ensures DueBefore(spine, t) == DueBy(spine, t) <==> forall i :: 0 <= i < |spine| ==> spine[i].time != t
  {
    if spine != [] {
      assert forall i :: 1 <= i < |spine| ==> spine[i] == spine[1..][i - 1];
      DueByBefore(spine[1..], t);
      if spine[0].time > t {
        NoneDueBy(spine[1..], t);
      }
    }
  }

  /** Exactly when a new action gets in line: behind everything due by its own time, so that actions due at the
      same time stay first in, first out. That is so if no action but the head of the list is due at that time. */
  lemma {:induction false} FirstInFirstOutIff<A>(spine: seq<TimedAction<A>>, t: Time)
    requires Sorted(spine)
    ensures var p := InsertPosition(spine, t);
      && (p == DueBy(spine, t) <==> forall i :: 1 <= i < |spine| ==> spine[i].time != t)
      && ((forall i :: p <= i < |spine| ==> spine[i].time > t) <==> p == DueBy(spine, t))
  {
    if spine != [] {
      assert forall i :: 1 <= i < |spine| ==> spine[i] == spine[1..][i - 1];
      DueByBefore(spine[1..], t);
      if t < spine[0].time {
        NoneDueBy(spine[1..], t);
      }
    }
  }

  class SimplePlanner<A> {
    var nextAction: TimedAction?<A>
    ghost var spine: seq<TimedAction<A>>

    ghost predicate Valid()
      reads this, spine
    {
      Linked(nextAction, spine) && Sorted(spine)
    }

    constructor ()
      ensures Valid() && spine == []
    {
      nextAction, spine := null, [];
    }

    method ScheduleAction(t: Time, a: A) returns (pa: TimedAction<A>)
      requires Valid()
      modifies this, spine
      ensures Valid() && fresh(pa) && pa.action == a && pa.time == t
      ensures var p := InsertPosition(old(spine), t);
        spine == old(spine)[..p] + [pa] + old(spine)[p..]
    {
      hide DueBefore;
      if nextAction == null {
        pa := new TimedAction(a, t, null);
        nextAction, spine := pa, [pa];
        return;
      }
      var curr := nextAction;
      if t < curr.time {
        pa := new TimedAction(a, t, curr);
        InsertKeepsOrder(spine, pa);
        nextAction, spine := pa, [pa] + spine;
        return;
      }
      ghost var k;
      curr, k := WalkTo(t);
      pa := new TimedAction(a, t, curr.next);
      InsertKeepsOrder(spine, pa);
      hide Sorted, InsertPosition;
      LinkAfter(curr, pa, k);
    }

    /** Past the first action, and everything after it that is due strictly before t. */
    method WalkTo(t: Time) returns (curr: TimedAction<A>, ghost k: nat)
      requires Valid() && spine != [] && t >= spine[0].time
      ensures k < |spine| && curr == spine[k] && InsertPosition(spine, t) == k + 1
    {
      hide DueBefore, InsertPosition;
      curr, k := nextAction, 0;
      while curr.next != null && t > curr.next.time
        invariant k < |spine| && curr == spine[k]
        invariant forall i :: 1 <= i <= k ==> spine[i].time < t
        decreases |spine| - k
      {
        curr := curr.next;
        k := k + 1;
      }
      InsertAfter(spine, t, k);
    }

    /** curr.next = pa, where pa already points on to curr's successor. */
    method LinkAfter(curr: TimedAction<A>, pa: TimedAction<A>, ghost k: nat)
      requires Linked(nextAction, spine) && k < |spine| && curr == spine[k] && pa !in spine && pa.next == curr.next
      modifies this`spine, curr
      ensures Linked(nextAction, spine) && spine == old(spine)[..k + 1] + [pa] + old(spine)[k + 1..]
    {
      ghost var s := spine;
      curr.next := pa;
      spine := s[..k + 1] + [pa] + s[k + 1..];
      assert forall i :: 0 <= i < |spine| ==> spine[i] == if i <= k then s[i] else if i == k + 1 then pa else s[i - 1];
    }

    /** curr.next = curr.next.next. */
    method UnlinkAfter(curr: TimedAction<A>, ghost k: nat)
      requires Linked(nextAction, spine) && k + 1 < |spine| && curr == spine[k]
      modifies this`spine, curr
      ensures Linked(nextAction, spine) && spine == old(spine)[..k + 1] + old(spine)[k + 2..]
    {
      ghost var s := spine;
      assert curr.next == s[k + 1] && s[k + 1].next == At(s, k + 2);
      curr.next := curr.next.next;
      spine := s[..k + 1] + s[k + 2..];
      assert forall i :: 0 <= i < |spine| ==> spine[i] == if i <= k then s[i] else s[i + 1];
    }

    /** Unlink pa; the result says whether it was still planned, pos where. */
    method RemoveAction(pa: TimedAction<A>) returns (removed: bool, ghost pos: nat)
      requires Valid()
      modifies this, spine
      ensures Valid() && (removed <==> pa in old(spine))
      ensures !removed ==> spine == old(spine)
      ensures removed ==>
        pos < |old(spine)| && old(spine)[pos] == pa && spine == old(spine)[..pos] + old(spine)[pos + 1..]
    {
      pos := 0;
      var curr := nextAction;
      if curr == null {
        return false, pos;
      }
      if curr == pa {
        nextAction := curr.next;
        spine := spine[1..];
        return true, pos;
      }
      while curr.next != null
        invariant pos < |spine| && curr == spine[pos] && spine == old(spine) && Valid()
        invariant forall i :: 0 <= i <= pos ==> spine[i] != pa
        decreases |spine| - pos
      {
        if curr.next == pa {
          UnlinkAfter(curr, pos);
          pos := pos + 1;
          return true, pos;
        }
        curr := curr.next;
        pos := pos + 1;
      }
      return false, pos;
    }

    /** Unlink and return, soonest first, exactly the actions due at or before now. */
    method PopOverdueActions(now: Time) returns (overdue: seq<A>, ghost n: nat)
      requires Valid()
      modifies this
      ensures Valid() && n <= |old(spine)| && spine == old(spine)[n..]
      ensures |overdue| == n && forall i :: 0 <= i < n ==>
        overdue[i] == old(spine)[i].action && old(spine)[i].time <= now
      ensures forall i :: 0 <= i < |spine| ==> spine[i].time > now
    {
      var curr := nextAction;
      overdue, n := [], 0;
      while curr != null && curr.time <= now
        invariant n <= |spine| && curr == At(spine, n) && |overdue| == n
        invariant forall i :: 0 <= i < n ==> overdue[i] == spine[i].action && spine[i].time <= now
        decreases |spine| - n
      {
        overdue := overdue + [curr.action];
        curr := curr.next;
        n := n + 1;
      }
      nextAction, spine := curr, spine[n..];
    }

    /** The due time of the soonest action, if there is one. */
    function NextActionTime(): (t: Option<Time>)
      requires Valid()
      reads this, spine
      ensures t.None? <==> spine == []
      ensures t.Some? ==> exists i :: 0 <= i < |spine| && spine[i].time == t.value
      ensures t.Some? ==> forall i :: 0 <= i < |spine| ==> t.value <= spine[i].time
    {
      if nextAction == null then None else
      assert nextAction == spine[0];
      Some(nextAction.time)
    }
  }

  /** The walk that inserts stops at the insert position. */
  lemma InsertAfter<A>(spine: seq<TimedAction<A>>, t: Time, k: nat)
    requires k < |spine| && t >= spine[0].time
    requires forall i :: 1 <= i <= k ==> spine[i].time < t
    requires k + 1 < |spine| ==> spine[k + 1].time >= t
    ensures InsertPosition(spine, t) == k + 1
  {
    var n := DueBefore(spine[1..], t);
    assert forall i :: 1 <= i < |spine| ==> spine[i] == spine[1..][i - 1];
    assert n < |spine| - 1 ==> spine[1..][n] == spine[n + 1];
  }

  /** Three actions planned for one time come out in the order first, third, second. */
  method ThreeAtOnce<A>(a: A, b: A, c: A, t: Time) returns (overdue: seq<A>)
    ensures overdue == [a, c, b]
  {
    var p := new SimplePlanner<A>();
    var x := p.ScheduleAction(t, a);
    assert p.spine == [x];
    var y := p.ScheduleAction(t, b);
    assert p.spine == [x, y];
    var z := p.ScheduleAction(t, c);
    assert p.spine == [x, z, y];
    ghost var n;
    overdue, n := p.PopOverdueActions(t);
    assert n == 3;
  }
}
