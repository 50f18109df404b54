/** The query's promises, for one step from any state the invariant allows and for whole runs. */
module QueryRuns {
  import opened Keys
  import opened Nearest
  import opened Options
  import opened Times
  import opened QueryModel
  import opened QueryProofs

  /** Enough nodes have answered: up to some distance every node has been dealt with, and exactly
      numResults of those answered. */
  ghost predicate EnoughAnswered(q: QueryState)
    requires KeysFit(q)
  {
    var order := Ranked(q.nodes.Keys, q.target);
    exists n :: Settled(q.nodes, order, n) && SucceededIn(q.nodes, order, n) == q.cfg.numResults
  }

  /** Every known node has been dealt with. */
  ghost predicate AllDealtWith(q: QueryState) {
    forall k :: k in q.nodes ==> q.nodes[k].Succeeded? || q.nodes[k].Failed? || q.nodes[k].Unresponsive?
  }

  /** k was messaged now, and every node still not contacted is farther from the target. */
  ghost predicate ClosestMessaged(q: QueryState, r: QueryState, k: Key)
    requires KeysFit(r)
  {
    && r.messaged == q.messaged + [k] && k !in q.messaged && k != q.self
    && k in r.nodes && r.nodes[k].Waiting?
    && forall x :: x in r.nodes && r.nodes[x] == NotContacted ==> Nearer(r.target, k, x)
  }

  ghost predicate Promised(q: QueryState, ev: Event, r: QueryState, out: Output) {
    && Inv(r) && After(q, r)
    && (out.WaitingMessage? ==> ClosestMessaged(q, r, out.node))
    && (!out.WaitingMessage? ==> r.messaged == q.messaged)
    && (out == WaitingAtCapacity ==> r.inFlight == r.cfg.concurrency)
    && (out == WaitingWithCapacity ==>
        0 < r.inFlight < r.cfg.concurrency && forall k :: k in r.nodes ==> r.nodes[k] != NotContacted)
    && (out == Finished <==> r.finished)
    && (out == Finished && !q.finished && ev != Cancel ==> EnoughAnswered(r) || AllDealtWith(r))
    && (q.finished ==> r == q)
  }

  lemma PromisedInv(q: QueryState, ev: Event, r: QueryState, out: Output)
    requires Promised(q, ev, r, out)
    ensures Inv(r)
  {
  }

  lemma RankedLists(q: QueryState)
    requires KeysFit(q)
    ensures var order := Ranked(q.nodes.Keys, q.target);
      Passed(q, order, 0, 0, false) <==> q.cfg.numResults > 0
  {
    IncreasingDistinct(Ranked(q.nodes.Keys, q.target), q.target);
  }

  /** A node placed at position i with nothing uncontacted before it is nearer than all uncontacted ones. */
  lemma FirstIsClosest(r: QueryState, order: seq<Key>, i: nat)
    requires KeysFit(r) && order == Ranked(r.nodes.Keys, r.target)
    requires i < |order| && order[i] in r.nodes && r.nodes[order[i]] != NotContacted
    requires NoneOpenBefore(r.nodes, order, i)
    ensures forall x :: x in r.nodes && r.nodes[x] == NotContacted ==> Nearer(r.target, order[i], x)
  {
    forall x | x in r.nodes && r.nodes[x] == NotContacted ensures Nearer(r.target, order[i], x) {
      assert x in order;
      var j :| 0 <= j < |order| && order[j] == x;
      assert !(j < i);
      assert j != i;
    }
  }

  lemma NoWaitingLeft(r: QueryState)
    requires Inv(r) && r.inFlight <= 0
    ensures forall k :: k in r.nodes ==> !r.nodes[k].Waiting?
  {
    assert |WaitingSet(r.nodes)| == 0;
    forall k | k in r.nodes ensures !r.nodes[k].Waiting? {
      assert k !in WaitingSet(r.nodes);
    }
  }

  lemma MarkFinishedInv(r: QueryState, now: Time)
    requires Inv(r)
    ensures Inv(MarkFinished(r, now)) && After(r, MarkFinished(r, now))
  {
    assert Forward(r.nodes, r.nodes);
  }

  /** A message goes to a node that was never messaged before. */
  lemma LaunchPromised(q: QueryState, e: QueryState, r: QueryState, k: Key)
    requires Inv(e) && Inv(r) && e.messaged == q.messaged && e.self == q.self && e.target == r.target
    requires r.nodes.Keys == e.nodes.Keys
    requires OutputRight(e, r, Some(WaitingMessage(k)), Ranked(e.nodes.Keys, e.target))
    ensures ClosestMessaged(q, r, k)
  {
    var order := Ranked(r.nodes.Keys, r.target);
    var i: nat :| i < |order| && order[i] == k && NoneOpenBefore(r.nodes, order, i);
    FirstIsClosest(r, order, i);
  }

  /** One step from any invariant state does all that is promised. */
  lemma AdvancePromises(q: QueryState, ev: Event, now: Time)
    requires Inv(q) && EventFits(q, ev)
    ensures KeysFit(q) && Promised(q, ev, Advance(q, ev, now).0, Advance(q, ev, now).1)
  {
    InvKeysFit(q);
    if !q.finished {
      if ev == Cancel {
        MarkFinishedInv(q, now);
      } else {
        OnEventRight(q, ev);
        PassPromises(q, ev, OnEvent(q, ev), now);
      }
    }
  }

  lemma PassPromises(q: QueryState, ev: Event, e: QueryState, now: Time)
    requires KeysFit(q) && EventFits(q, ev) && !q.finished && ev != Cancel && e == OnEvent(q, ev)
    requires Inv(e) && After(q, e) && e.messaged == q.messaged && !e.finished
    ensures Promised(q, ev, Advance(q, ev, now).0, Advance(q, ev, now).1)
  {
    var order := Ranked(e.nodes.Keys, e.target);
    RankedLists(e);
    ScanRight(e, order, 0, now, 0, false);
    var (r, out) := Scan(e, order, 0, now, 0, false);
    ForwardTransitive(q.nodes, e.nodes, r.nodes);
    match out
    case Some(WaitingMessage(k)) => LaunchPromised(q, e, r, k);
    case None =>
      if r.inFlight <= 0 { NoWaitingLeft(r); MarkFinishedInv(r, now); }
    case _ =>
  }

  // ---------- whole runs ----------

  datatype StepInput = StepInput(ev: Event, now: Time)

  ghost predicate StepsFit(q: QueryState, steps: seq<StepInput>) {
    forall i :: 0 <= i < |steps| ==> EventFits(q, steps[i].ev)
  }

  /** The state after a sequence of events, whatever they are and whenever they come. */
  ghost function RunQuery(q: QueryState, steps: seq<StepInput>): (r: QueryState)
    requires Inv(q) && StepsFit(q, steps)
    ensures Inv(r) && After(q, r)
    decreases |steps|
  {
    if steps == [] then
      MarkFinishedInv(q, 0);
      q
    else
      AdvancePromises(q, steps[0].ev, steps[0].now);
      var next := Advance(q, steps[0].ev, steps[0].now).0;
      assert StepsFit(next, steps[1..]) by { StepsFitAfter(q, next, steps); }
      var r := RunQuery(next, steps[1..]);
      ForwardTransitive(q.nodes, next.nodes, r.nodes);
      r
  }

  lemma StepsFitAfter(q: QueryState, next: QueryState, steps: seq<StepInput>)
    requires StepsFit(q, steps) && steps != [] && next.target == q.target
    ensures StepsFit(next, steps[1..])
  {
    forall i | 0 <= i < |steps| - 1 ensures EventFits(next, steps[1..][i].ev) {
      assert steps[1..][i] == steps[i + 1];
    }
  }

  /** What was messaged stays messaged: later steps only append. */
  lemma {:induction false} RunOnlyAppends(q: QueryState, steps: seq<StepInput>)
    requires Inv(q) && StepsFit(q, steps)
    ensures q.messaged <= RunQuery(q, steps).messaged
    decreases |steps|
  {
    if steps != [] {
      AdvancePromises(q, steps[0].ev, steps[0].now);
      var next := Advance(q, steps[0].ev, steps[0].now).0;
      StepsFitAfter(q, next, steps);
      RunOnlyAppends(next, steps[1..]);
    }
  }

  lemma {:induction false} TailsKeepSize(s: set<Key>, b: bool)
    requires forall k :: k in s ==> |k| > 0 && k[0] == b
    ensures |set k | k in s :: k[1..]| == |s|
    decreases |s|
  {
    var tails := set k | k in s :: k[1..];
    if s != {} {
      var k :| k in s;
      var s' := s - {k};
      var tails' := set x | x in s' :: x[1..];
      TailsKeepSize(s', b);
      forall x | x in s' ensures x[1..] != k[1..] {
        assert x == [b] + x[1..] && k == [b] + k[1..];
      }
      assert tails == tails' + {k[1..]};
    }
  }

  /** There are no more than 2^n keys of n bits. */
  lemma {:induction false} KeyspaceBound(s: set<Key>, n: nat)
    requires forall k :: k in s ==> |k| == n
    ensures |s| <= Pow2(n)
    decreases n
  {
    if n == 0 {
      assert s <= {[]};
      assert {[]} == s + ({[]} - s);
    } else {
      var s0, s1 := set k | k in s && !k[0], set k | k in s && k[0];
      assert s == s0 + s1;
      TailsKeepSize(s0, false);
      TailsKeepSize(s1, true);
      KeyspaceBound(set k | k in s0 :: k[1..], n - 1);
      KeyspaceBound(set k | k in s1 :: k[1..], n - 1);
    }
  }

  /** Over any run of a new query: no key is messaged twice, the own key never, and there are fewer
      messages than keys. */
  lemma MessagedOnce(self: Key, target: Key, known: seq<Key>, cfg: Config, steps: seq<StepInput>)
    requires GoodConfig(cfg) && |self| == |target| && forall i :: 0 <= i < |known| ==> |known[i]| == |target|
    requires StepsFit(NewQuery(self, target, known, cfg), steps)
    ensures Inv(NewQuery(self, target, known, cfg))
    ensures var r := RunQuery(NewQuery(self, target, known, cfg), steps);
      && Distinct(r.messaged) && self !in r.messaged
      && |r.messaged| < Pow2(|self|)
  {
    NewQueryInv(self, target, known, cfg);
    var r := RunQuery(NewQuery(self, target, known, cfg), steps);
    var keys := set k | k in r.messaged;
    DistinctCount(r.messaged);
    KeyspaceBound(keys + {self}, |self|);
  }
}
