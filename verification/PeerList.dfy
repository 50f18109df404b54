/** The peer list of a simple query: every known peer, nearest to the target first, in one linked list. */
module PeerLists {
  import opened Keys
  import opened Options

  datatype Status = Queued | Waiting | Queried | Unreachable

  datatype NodeID = NodeID(name: string, key: Key)

  /** An id the list takes: one with a name and a key as long as the target. */
  ghost predicate Usable(target: Key, id: Option<NodeID>) {
    id.Some? && id.value.name != "" && |id.value.key| == |target|
  }

  class NodeInfo {
    const id: NodeID
    const distance: Key
    var status: Status
    var next: NodeInfo?

    constructor (target: Key, id: NodeID)
      requires |id.key| == |target|
      ensures this.id == id && distance == Xor(target, id.key) && status == Queued && next == null
    {
      this.id, distance, status, next := id, Xor(target, id.key), Queued, null;
    }
  }

  ghost function Elems<T>(s: seq<T>): set<T> {
    set x | x in s
  }

  lemma ElemAt<T>(s: seq<T>, i: nat)
    requires i < |s|
    ensures s[i] in Elems(s)
  {}

  ghost function At(spine: seq<NodeInfo>, i: nat): NodeInfo? {
    if i < |spine| then spine[i] else null
  }

  /** head is a list through exactly the nodes of spine, in order. */
  ghost predicate Linked(head: NodeInfo?, spine: seq<NodeInfo>)
    reads spine`next
  {
    head == At(spine, 0) && LinkedFrom(spine, 0)
  }

  ghost predicate LinkedFrom(spine: seq<NodeInfo>, i: nat)
    reads spine`next
  {
    forall k {:trigger spine[k].next} :: i <= k < |spine| ==> spine[k].next == At(spine, k + 1)
  }

  /** Strictly nearest first; so no two nodes, and no two keys, are the same. */
  ghost predicate Sorted(spine: seq<NodeInfo>) {
    forall i, j :: 0 <= i < j < |spine| ==> Value(spine[i].distance) < Value(spine[j].distance)
  }

  ghost predicate ForTarget(target: Key, spine: seq<NodeInfo>) {
    forall x :: x in spine ==> Usable(target, Some(x.id)) && x.distance == Xor(target, x.id.key)
  }

  /** The nodes of a list that wait to be popped. */
  ghost function QueuedIn(spine: seq<NodeInfo>): set<NodeInfo>
    reads spine`status
  {
    set x | x in spine && x.status == Queued
  }

  /** The first node of a list that is in q. */
  ghost function FirstIn(spine: seq<NodeInfo>, q: set<NodeInfo>): NodeInfo? {
    if spine == [] then null else if spine[0] in q then spine[0] else FirstIn(spine[1..], q)
  }

  /** How many nodes of a list are in q. */
  ghost function CountIn(spine: seq<NodeInfo>, q: set<NodeInfo>): nat {
    if spine == [] then 0 else (if spine[0] in q then 1 else 0) + CountIn(spine[1..], q)
  }

  /** Two sorted lists in one; of two nodes at the same distance, the old one. */
  ghost function Merge(o: seq<NodeInfo>, n: seq<NodeInfo>): seq<NodeInfo> {
    if o == [] then n else if n == [] then o else
    var c := Compare(o[0].distance, n[0].distance);
    if c > 0 then [n[0]] + Merge(o, n[1..])
    else if c < 0 then [o[0]] + Merge(o[1..], n)
    else [o[0]] + Merge(o[1..], n[1..])
  }

  lemma {:induction false} InConcat(a: seq<NodeInfo>, b: seq<NodeInfo>, q: set<NodeInfo>)
    ensures FirstIn(a + b, q) == if FirstIn(a, q) != null then FirstIn(a, q) else FirstIn(b, q)
    ensures CountIn(a + b, q) == CountIn(a, q) + CountIn(b, q)
  {
    if a == [] {
      assert a + b == b;
    } else {
      InConcat(a[1..], b, q);
      assert (a + b)[1..] == a[1..] + b;
    }
  }

  lemma InOne(x: NodeInfo, q: set<NodeInfo>)
    ensures FirstIn([x], q) == if x in q then x else null
    ensures CountIn([x], q) == if x in q then 1 else 0
  {
    assert [x][1..] == [];
  }

  /** What the first node in q is: a node in q with none before it, or null if no node is in q. */
  lemma {:induction false} FirstInIs(s: seq<NodeInfo>, q: set<NodeInfo>)
    ensures FirstIn(s, q) == null ==> CountIn(s, q) == 0 && forall x :: x in s ==> x !in q
    ensures FirstIn(s, q) != null ==> CountIn(s, q) > 0
    ensures FirstIn(s, q) != null ==>
      exists i :: 0 <= i < |s| && s[i] == FirstIn(s, q) && s[i] in q && forall j :: 0 <= j < i ==> s[j] !in q
  {
    if s != [] {
      FirstInIs(s[1..], q);
      if s[0] !in q && FirstIn(s, q) != null {
        var i :| 0 <= i < |s[1..]| && s[1..][i] == FirstIn(s[1..], q) && s[1..][i] in q
          && forall j :: 0 <= j < i ==> s[1..][j] !in q;
        assert s[i + 1] == FirstIn(s, q) && forall j :: 1 <= j < i + 1 ==> s[j] == s[1..][j - 1];
      }
    }
  }

  lemma {:induction false} AllIn(s: seq<NodeInfo>, q: set<NodeInfo>)
    requires forall x :: x in s ==> x in q
    ensures FirstIn(s, q) == At(s, 0) && CountIn(s, q) == |s|
  {
    if s != [] {
      AllIn(s[1..], q);
    }
  }

  /** Only membership of the list's own nodes matters. */
  lemma {:induction false} InAgrees(s: seq<NodeInfo>, q: set<NodeInfo>, p: set<NodeInfo>)
    requires forall x :: x in s ==> (x in q <==> x in p)
    ensures FirstIn(s, q) == FirstIn(s, p) && CountIn(s, q) == CountIn(s, p)
  {
    if s != [] {
      InAgrees(s[1..], q, p);
    }
  }

  lemma {:induction false} MergeFrom(o: seq<NodeInfo>, n: seq<NodeInfo>)
    ensures forall x :: x in Merge(o, n) ==> x in o || x in n
    decreases |o| + |n|
  {
    hide Value, Compare;
    if o != [] && n != [] {
      var c := Compare(o[0].distance, n[0].distance);
      MergeFrom(if c > 0 then o else o[1..], if c < 0 then n else n[1..]);
    }
  }

  ghost predicate Above(d: int, s: seq<NodeInfo>) {
    forall x :: x in s ==> d < Value(x.distance)
  }

  lemma SortedTail(s: seq<NodeInfo>)
    requires Sorted(s) && s != []
    ensures Sorted(s[1..]) && Above(Value(s[0].distance), s[1..])
  {
    hide Value;
  }

  lemma SortedCons(h: NodeInfo, s: seq<NodeInfo>)
    requires Sorted(s) && Above(Value(h.distance), s)
    ensures Sorted([h] + s)
  {
    hide Value;
    assert forall i :: 0 <= i < |s| ==> s[i] in s;
  }

  lemma {:induction false} MergeAbove(d: int, o: seq<NodeInfo>, n: seq<NodeInfo>)
    requires Above(d, o) && Above(d, n)
    ensures Above(d, Merge(o, n))
    decreases |o| + |n|
  {
    hide Value;
    if o != [] && n != [] {
      var c := Compare(o[0].distance, n[0].distance);
      MergeAbove(d, if c > 0 then o else o[1..], if c < 0 then n else n[1..]);
    }
  }

  lemma {:induction false} MergeSorted(o: seq<NodeInfo>, n: seq<NodeInfo>)
    requires Sorted(o) && Sorted(n)
    ensures Sorted(Merge(o, n))
    decreases |o| + |n|
  {
    hide Value, Sorted;
    if o != [] && n != [] {
      SortedTail(o);
      SortedTail(n);
      var c := Compare(o[0].distance, n[0].distance);
      var o', n' := if c > 0 then o else o[1..], if c < 0 then n else n[1..];
      var h := if c > 0 then n[0] else o[0];
      MergeSorted(o', n');
      MergeAbove(Value(h.distance), o', n');
      SortedCons(h, Merge(o', n'));
    }
  }

  /** x is as far from the target as some node of s. */
  ghost predicate Taken(x: NodeInfo, s: seq<NodeInfo>) {
    exists y :: y in s && Value(y.distance) == Value(x.distance)
  }

  /** The merge holds every old node, and every new one whose distance no old node has. */
  lemma {:induction false} MergeMembers(o: seq<NodeInfo>, n: seq<NodeInfo>, x: NodeInfo)
    requires Sorted(o) && Sorted(n)
    ensures x in Merge(o, n) <==> x in o || (x in n && !Taken(x, o))
    decreases |o| + |n|
  {
    hide Value, Sorted;
    if o != [] && n != [] {
      SortedTail(o);
      SortedTail(n);
      var c := Compare(o[0].distance, n[0].distance);
      MergeMembers(if c > 0 then o else o[1..], if c < 0 then n else n[1..], x);
      assert o == [o[0]] + o[1..] && n == [n[0]] + n[1..];
      assert x in n ==> (Taken(x, o) <==> Value(o[0].distance) == Value(x.distance) || Taken(x, o[1..]));
    }
  }

  /** A merge m of o and n has taken i old and j new nodes and laid out k: the rest is the merge of the rests. */
  ghost predicate Ahead(o: seq<NodeInfo>, n: seq<NodeInfo>, m: seq<NodeInfo>, i: nat, j: nat, k: nat) {
    i <= |o| && j <= |n| && k <= |m| && m[k..] == Merge(o[i..], n[j..])
  }

  /** What a merge has laid out are nodes it has taken. */
  ghost predicate Covered(o: seq<NodeInfo>, n: seq<NodeInfo>, m: seq<NodeInfo>, i: nat, j: nat, k: nat)
    requires i <= |o| && j <= |n| && k <= |m|
  {
    forall l :: 0 <= l < k ==> m[l] in o[..i] || m[l] in n[..j]
  }

  ghost predicate LinkedUpTo(m: seq<NodeInfo>, k: nat)
    requires k <= |m|
    reads m`next
  {
    forall l {:trigger m[l].next} :: 0 <= l < k - 1 ==> m[l].next == m[l + 1]
  }

  /** The merge takes the nearer of the two heads next, and drops a new node that ties. */
  lemma NextTaken(o: seq<NodeInfo>, n: seq<NodeInfo>, m: seq<NodeInfo>, i: nat, j: nat, k: nat)
    requires Ahead(o, n, m, i, j, k) && Covered(o, n, m, i, j, k) && i < |o| && j < |n|
    ensures k < |m| && m[k] == if Compare(o[i].distance, n[j].distance) > 0 then n[j] else o[i]
    ensures var c := Compare(o[i].distance, n[j].distance);
      var i', j' := if c > 0 then i else i + 1, if c < 0 then j else j + 1;
      Ahead(o, n, m, i', j', k + 1) && Covered(o, n, m, i', j', k + 1)
  {
    hide Value;
    var c := Compare(o[i].distance, n[j].distance);
    assert o[i..][1..] == o[i + 1..] && n[j..][1..] == n[j + 1..];
    var rest := Merge(if c > 0 then o[i..] else o[i + 1..], if c < 0 then n[j..] else n[j + 1..]);
    var h := if c > 0 then n[j] else o[i];
    assert m[k..] == [h] + rest;
    assert m[k] == m[k..][0];
    assert m[k + 1..] == rest by {
      assert m[k + 1..] == m[k..][1..];
    }
    assert o[..i + 1] == o[..i] + [o[i]] && n[..j + 1] == n[..j] + [n[j]];
  }

  ghost predicate Apart(o: seq<NodeInfo>, n: seq<NodeInfo>) {
    Sorted(o) && Sorted(n) && forall x :: x in n ==> x !in o
  }

  /** The last node laid out can be relinked without disturbing anything else. */
  lemma LastIsFree(o: seq<NodeInfo>, n: seq<NodeInfo>, m: seq<NodeInfo>, i: nat, j: nat, k: nat)
    requires Apart(o, n) && Sorted(m) && i <= |o| && j <= |n| && 0 < k <= |m| && Covered(o, n, m, i, j, k)
    ensures forall l :: i <= l < |o| ==> o[l] != m[k - 1]
    ensures forall l :: j <= l < |n| ==> n[l] != m[k - 1]
    ensures forall l :: 0 <= l < k - 1 ==> m[l] != m[k - 1]
  {
    hide Value;
    var x := m[k - 1];
    assert forall s: seq<NodeInfo>, a: nat, l: nat :: Sorted(s) && a <= l < |s| && x in s[..a] ==> s[l] != x;
    assert x in o[..i] ==> x in o;
    assert x in n[..j] ==> x in n;
    assert forall l :: 0 <= l < |o| ==> o[l] in o;
    assert forall l :: 0 <= l < |n| ==> n[l] in n;
  }

  /** Where the links of a merge stand: the nodes laid out are linked up, the nodes not taken are linked as
      they were, and prev, the last one laid out, points to the head of one of the two rests. */
  ghost predicate Merging(o: seq<NodeInfo>, n: seq<NodeInfo>, m: seq<NodeInfo>, i: nat, j: nat, k: nat,
                          prev: NodeInfo?, currOld: bool)
    reads o`next, n`next, m`next
  {
    && Ahead(o, n, m, i, j, k) && Covered(o, n, m, i, j, k)
    && LinkedFrom(o, i) && LinkedFrom(n, j) && LinkedUpTo(m, k)
    && (if k == 0 then prev == null && i == 0 && j == 0
        else prev == m[k - 1] && prev.next == (if currOld then At(o, i) else At(n, j)))
  }

  lemma LinkedFromFirst(head: NodeInfo?, m: seq<NodeInfo>)
    requires m != [] && head == m[0] && LinkedFrom(m, 0)
    ensures Linked(head, m)
  {}

  lemma PrevIsTaken(o: seq<NodeInfo>, n: seq<NodeInfo>, m: seq<NodeInfo>, i: nat, j: nat, k: nat, prev: NodeInfo?,
                    currOld: bool)
    requires Merging(o, n, m, i, j, k, prev, currOld)
    ensures prev != null ==> prev in Elems(o) + Elems(n)
  {
    hide Ahead, LinkedFrom, LinkedUpTo;
  }

  lemma MergingTakeNew(o: seq<NodeInfo>, n: seq<NodeInfo>, m: seq<NodeInfo>, i: nat, j: nat, k: nat, prev: NodeInfo?)
    requires Merging(o, n, m, i, j, k, prev, false) && i < |o| && j < |n| && Compare(o[i].distance, n[j].distance) > 0
    ensures Merging(o, n, m, i, j + 1, k + 1, n[j], false) && n[j].next == At(n, j + 1) && k < |m| && m[k] == n[j]
  {
    NextTaken(o, n, m, i, j, k);
    hide Ahead, Covered, Compare;
  }

  lemma MergingTakeOld(o: seq<NodeInfo>, n: seq<NodeInfo>, m: seq<NodeInfo>, i: nat, j: nat, k: nat, prev: NodeInfo?)
    requires Merging(o, n, m, i, j, k, prev, true) && i < |o| && j < |n| && Compare(o[i].distance, n[j].distance) <= 0
    ensures Merging(o, n, m, i + 1, if Compare(o[i].distance, n[j].distance) == 0 then j + 1 else j, k + 1, o[i], true)
    ensures o[i].next == At(o, i + 1) && n[j].next == At(n, j + 1) && k < |m| && m[k] == o[i]
  {
    NextTaken(o, n, m, i, j, k);
    hide Ahead, Covered, Compare;
  }

  lemma MergingStarts(o: seq<NodeInfo>, n: seq<NodeInfo>, currOld: bool)
    requires o != [] && n != [] && LinkedFrom(o, 0) && LinkedFrom(n, 0)
    ensures Merging(o, n, Merge(o, n), 0, 0, 0, null, currOld)
    ensures Merge(o, n) != [] && Merge(o, n)[0] == if Compare(o[0].distance, n[0].distance) > 0 then n[0] else o[0]
  {
    hide Compare;
    assert o[0..] == o && n[0..] == n;
  }

  lemma LinkedAtEnd(o: seq<NodeInfo>, n: seq<NodeInfo>, m: seq<NodeInfo>, i: nat, j: nat, k: nat)
    requires Ahead(o, n, m, i, j, k) && LinkedFrom(o, i) && LinkedFrom(n, j) && LinkedUpTo(m, k)
    requires k > 0 && (i == |o| || j == |n|) && m[k - 1].next == if i == |o| then At(n, j) else At(o, i)
    ensures m[k..] == (if i == |o| then n[j..] else o[i..]) && LinkedFrom(m, 0)
  {
    var rest := if i == |o| then n[j..] else o[i..];
    assert m[k..] == rest;
    assert forall l :: k <= l < |m| ==> m[l] == rest[l - k];
    assert forall l :: k <= l < |m| ==> m[l] == if i == |o| then n[l - k + j] else o[l - k + i];
  }

  /** Where the merge's closestQueued and count stand; q holds the queued nodes. Before the first step,
      closestQueued is not set yet if the new list has the nearer head. */
  ghost predicate QueuedSoFar(o: seq<NodeInfo>, m: seq<NodeInfo>, q: set<NodeInfo>, i: nat, k: nat, newFirst: bool,
                              closestQueued: NodeInfo?, reached: bool, count: int)
    requires i <= |o| && k <= |m|
  {
    && count == CountIn(m[..k], q) + CountIn(o[i..], q)
    && (if reached then closestQueued != null && closestQueued == FirstIn(m[..k], q)
        else (
          && FirstIn(m[..k], q) == null && FirstIn(o[..i], q) == null
          && (k > 0 || !newFirst ==> closestQueued == FirstIn(o, q))))
  }

  lemma QueuedStarts(o: seq<NodeInfo>, m: seq<NodeInfo>, q: set<NodeInfo>, newFirst: bool, closestQueued: NodeInfo?)
    requires newFirst || closestQueued == FirstIn(o, q)
    ensures QueuedSoFar(o, m, q, 0, 0, newFirst, closestQueued, false, CountIn(o, q))
  {
    assert o[0..] == o;
  }

  lemma QueuedTakeNew(o: seq<NodeInfo>, m: seq<NodeInfo>, q: set<NodeInfo>, i: nat, k: nat, newFirst: bool,
                      closestQueued: NodeInfo?, reached: bool, count: int)
    requires i <= |o| && k < |m| && QueuedSoFar(o, m, q, i, k, newFirst, closestQueued, reached, count) && m[k] in q
    ensures QueuedSoFar(o, m, q, i, k + 1, newFirst, if reached then closestQueued else m[k], true, count + 1)
  {
    assert m[..k + 1] == m[..k] + [m[k]];
    InConcat(m[..k], [m[k]], q);
    InOne(m[k], q);
  }

  lemma QueuedTakeOld(o: seq<NodeInfo>, m: seq<NodeInfo>, q: set<NodeInfo>, i: nat, k: nat, newFirst: bool,
                      closestQueued: NodeInfo?, reached: bool, count: int)
    requires i < |o| && k < |m| && QueuedSoFar(o, m, q, i, k, newFirst, closestQueued, reached, count) && m[k] == o[i]
    requires k == 0 ==> !newFirst
    ensures QueuedSoFar(o, m, q, i + 1, k + 1, newFirst, closestQueued, reached || o[i] == closestQueued, count)
  {
    assert m[..k + 1] == m[..k] + [m[k]] && o[..i + 1] == o[..i] + [o[i]] && o[i..] == [o[i]] + o[i + 1..];
    InConcat(m[..k], [m[k]], q);
    InConcat(o[..i], [o[i]], q);
    InConcat([o[i]], o[i + 1..], q);
    InOne(o[i], q);
    if !reached {
      assert o == o[..i] + o[i..];
      InConcat(o[..i], o[i..], q);
      FirstInIs(o, q);
    }
  }

  lemma QueuedAtEnd(o: seq<NodeInfo>, m: seq<NodeInfo>, q: set<NodeInfo>, i: nat, k: nat, newFirst: bool,
                    closestQueued: NodeInfo?, reached: bool, count: int)
    requires i <= |o| && 0 < k <= |m| && QueuedSoFar(o, m, q, i, k, newFirst, closestQueued, reached, count)
    requires if i == |o| then forall x :: x in m[k..] ==> x in q else m[k..] == o[i..]
    ensures (if i < |o| || reached then closestQueued else At(m[k..], 0)) == FirstIn(m, q)
    ensures (if i < |o| then count else count + |m[k..]|) == CountIn(m, q)
  {
    assert m == m[..k] + m[k..] && o == o[..i] + o[i..];
    InConcat(m[..k], m[k..], q);
    InConcat(o[..i], o[i..], q);
    if i == |o| {
      AllIn(m[k..], q);
    }
  }

  /** Two ids with keys as long as the target are equally far from it only if the keys are the same. */
  lemma SameDistance(target: Key, a: Key, b: Key)
    requires |a| == |b| == |target|
    ensures Value(Xor(target, a)) == Value(Xor(target, b)) <==> a == b
  {
    hide Value;
    NearerIsXorOrder(target, a, b);
    assert Xor(target, a) == Xor(a, target) && Xor(target, b) == Xor(b, target);
  }

  ghost predicate Ascending(s: seq<NodeInfo>) {
    forall i, j :: 0 <= i < j < |s| ==> Value(s[i].distance) <= Value(s[j].distance)
  }

  function Inserted<T>(r: seq<T>, p: nat, x: T): seq<T>
    requires p <= |r|
  {
    r[..p] + [x] + r[p..]
  }

  lemma InsertAscending(r: seq<NodeInfo>, p: nat, x: NodeInfo)
    requires Ascending(r) && p <= |r|
    requires p > 0 ==> Value(r[p - 1].distance) <= Value(x.distance)
    requires p < |r| ==> Value(x.distance) < Value(r[p].distance)
    ensures Ascending(Inserted(r, p, x))
  {
    hide Value;
    var s := Inserted(r, p, x);
    assert forall i :: 0 <= i < |s| ==> s[i] == if i < p then r[i] else if i == p then x else r[i - 1];
  }

  ghost predicate Permutes<T>(r: seq<T>, s: seq<T>) {
    multiset(r) == multiset(s)
  }

  lemma PermutesElems(a: seq<NodeInfo>, b: seq<NodeInfo>)
    requires Permutes(a, b)
    ensures Elems(a) == Elems(b)
  {
    assert forall x :: x in a <==> x in multiset(a);
    assert forall x :: x in b <==> x in multiset(b);
  }

  lemma PermutesInsert<T>(r: seq<T>, s: seq<T>, i: nat, p: nat)
    requires i < |s| && p <= |r| && Permutes(r, s[..i])
    ensures Permutes(Inserted(r, p, s[i]), s[..i + 1])
  {
    assert r == r[..p] + r[p..];
    assert s[..i + 1] == s[..i] + [s[i]];
  }

  /** Where x goes in a sorted list: after everything that is not farther. */
  method InsertPoint(r: seq<NodeInfo>, x: NodeInfo) returns (p: nat)
    ensures p <= |r| && (p < |r| ==> Value(x.distance) < Value(r[p].distance))
    ensures p > 0 ==> Value(r[p - 1].distance) <= Value(x.distance)
  {
    hide Value;
    p := |r|;
    while p > 0 && Compare(r[p - 1].distance, x.distance) > 0
      invariant p <= |r| && (p < |r| ==> Value(x.distance) < Value(r[p].distance))
    {
      p := p - 1;
    }
  }

  /** Sort by distance. Which of two nodes at the same distance comes first is not promised. */
  method SortByDistance(peers: seq<NodeInfo>) returns (r: seq<NodeInfo>)
    ensures Permutes(r, peers) && Ascending(r) && Elems(r) == Elems(peers)
  {
    r := [];
    assert Ascending(r) && Permutes(r, peers[..0]);
    hide Value, Ascending, Elems, Permutes, Inserted;
    for i := 0 to |peers|
      invariant Permutes(r, peers[..i]) && Ascending(r)
    {
      var p := InsertPoint(r, peers[i]);
      InsertAscending(r, p, peers[i]);
      PermutesInsert(r, peers, i, p);
      r := Inserted(r, p, peers[i]);
    }
    assert peers[..|peers|] == peers;
    PermutesElems(r, peers);
  }

  /** A new node for every usable id. */
  method NewPeers(target: Key, ids: seq<Option<NodeID>>) returns (peers: seq<NodeInfo>)
    ensures forall x :: x in Elems(peers) ==> fresh(x) && x.status == Queued && x.next == null && Some(x.id) in ids
    ensures ForTarget(target, peers) && Represented(target, ids, peers)
  {
    peers := [];
    for i := 0 to |ids|
      invariant forall x :: x in Elems(peers) ==> fresh(x) && x.status == Queued && x.next == null && Some(x.id) in ids
      invariant ForTarget(target, peers) && Represented(target, ids[..i], peers)
    {
      if ids[i].Some? && ids[i].value.name != "" && |ids[i].value.key| == |target| {
        var x := new NodeInfo(target, ids[i].value);
        assert x in peers + [x];
        peers := peers + [x];
      }
    }
    assert ids[..|ids|] == ids;
  }

  /** Every usable id has its key in the list. */
  ghost predicate Represented(target: Key, ids: seq<Option<NodeID>>, peers: seq<NodeInfo>) {
    forall i :: 0 <= i < |ids| && Usable(target, ids[i]) ==> exists x :: x in peers && x.id.key == ids[i].value.key
  }

  lemma SortedSnoc(s: seq<NodeInfo>, x: NodeInfo)
    requires Sorted(s) && s != [] && Value(s[|s| - 1].distance) < Value(x.distance)
    ensures Sorted(s + [x])
  {
    hide Value;
  }

  lemma SameTaken(x: NodeInfo, s: seq<NodeInfo>)
    requires s != [] && Value(s[|s| - 1].distance) == Value(x.distance)
    ensures Taken(x, s)
  {
    hide Value;
    assert s[|s| - 1] in s;
  }

  lemma TakenSnoc(s: seq<NodeInfo>, x: NodeInfo)
    ensures forall y :: Taken(y, s) ==> Taken(y, s + [x])
    ensures Taken(x, s + [x])
  {
    hide Value;
    assert forall y :: y in s ==> y in s + [x];
    assert x in s + [x];
  }

  /** The nodes of s that are not as far as the one kept before them. */
  ghost function Kept(s: seq<NodeInfo>): (r: seq<NodeInfo>)
    ensures s != [] ==> r != []
  {
    if |s| <= 1 then s else
    var k, x := Kept(s[..|s| - 1]), s[|s| - 1];
    if Compare(k[|k| - 1].distance, x.distance) != 0 then k + [x] else k
  }

  lemma {:induction false} KeptFacts(s: seq<NodeInfo>)
    requires Ascending(s)
    ensures Sorted(Kept(s)) && Elems(Kept(s)) <= Elems(s) && (forall x :: x in Elems(s) ==> Taken(x, Kept(s)))
    ensures s != [] ==> Kept(s)[0] == s[0] && Value(Kept(s)[|Kept(s)| - 1].distance) == Value(s[|s| - 1].distance)
  {
    hide Value, Ascending, Sorted, Taken;
    if s == [] {
      SortedNil();
    } else if |s| == 1 {
      assert s == [s[0]];
      StartKept(s[0]);
    } else {
      var t, x := s[..|s| - 1], s[|s| - 1];
      AscendingPrefix(s, |s| - 1);
      KeptFacts(t);
      var k := Kept(t);
      hide Kept;
      assert s == t + [x] && Elems(s) == Elems(t) + {x};
      if Compare(k[|k| - 1].distance, x.distance) != 0 {
        SortedSnoc(k, x);
        TakenSnoc(k, x);
      } else {
        SameTaken(x, k);
      }
    }
  }

  lemma AscendingPrefix(s: seq<NodeInfo>, i: nat)
    requires Ascending(s) && 0 < i < |s|
    ensures Ascending(s[..i]) && Value(s[i - 1].distance) <= Value(s[i].distance)
  {
    hide Value;
  }

  lemma StartKept(x: NodeInfo)
    ensures Sorted([x]) && Taken(x, [x])
  {
    assert x in [x];
  }

  lemma KeptNext(s: seq<NodeInfo>, i: nat)
    requires 0 < i < |s|
    ensures var k := Kept(s[..i]);
      Kept(s[..i + 1]) == if Compare(k[|k| - 1].distance, s[i].distance) != 0 then k + [s[i]] else k
  {
    assert s[..i + 1][..i] == s[..i];
  }

  lemma LinkedWhole(s: seq<NodeInfo>)
    requires s != [] && LinkedUpTo(s, |s|) && s[|s| - 1].next == null
    ensures Linked(s[0], s)
  {}

  lemma LastDistinct(s: seq<NodeInfo>)
    requires Sorted(s) && s != []
    ensures forall l :: 0 <= l < |s| - 1 ==> s[l] != s[|s| - 1]
  {
    hide Value;
  }

  /** Link sorted nodes into a list, leaving out every node as far as the one before it. */
  method LinkDistinct(peers: seq<NodeInfo>) returns (ghost kept: seq<NodeInfo>)
    requires peers != [] && Ascending(peers) && forall x :: x in Elems(peers) ==> x.next == null
    modifies Elems(peers)`next
    ensures kept == Kept(peers) && Linked(peers[0], kept)
  {
    hide *;
    var curr := peers[0];
    kept := [curr];
    KeptStarts(peers);
    for i := 1 to |peers|
      invariant KeptSoFar(peers, kept, i) && kept != [] && curr == kept[|kept| - 1]
    {
      KeptStep(peers, kept, i);
      if Compare(curr.distance, peers[i].distance) != 0 {
        LinkLast(peers, kept, i, curr);
        curr := curr.next;
        kept := kept + [curr];
      }
    }
    KeptEnds(peers, kept);
  }

  /** The first i nodes are linked up, and no node from the last kept one on points anywhere yet. */
  ghost predicate KeptSoFar(peers: seq<NodeInfo>, kept: seq<NodeInfo>, i: nat)
    reads kept`next, Elems(peers)`next
  {
    && 0 < i <= |peers| && kept != [] && kept[0] == peers[0] && kept == Kept(peers[..i]) && LinkedUpTo(kept, |kept|)
    && kept[|kept| - 1] in Elems(peers)
    && forall x :: x in Elems(peers) && Value(kept[|kept| - 1].distance) <= Value(x.distance) ==> x.next == null
  }

  lemma KeptStarts(peers: seq<NodeInfo>)
    requires peers != [] && forall x :: x in Elems(peers) ==> x.next == null
    ensures KeptSoFar(peers, [peers[0]], 1)
  {
    hide Value;
  }

  lemma KeptStep(peers: seq<NodeInfo>, kept: seq<NodeInfo>, i: nat)
    requires Ascending(peers) && KeptSoFar(peers, kept, i) && i < |peers|
    ensures Compare(kept[|kept| - 1].distance, peers[i].distance) == 0 ==> KeptSoFar(peers, kept, i + 1)
    ensures kept != [] && kept[|kept| - 1] in Elems(peers)
  {
    hide Value, Kept, LinkedUpTo, Ascending;
    KeptNext(peers, i);
  }

  lemma KeptEnds(peers: seq<NodeInfo>, kept: seq<NodeInfo>)
    requires KeptSoFar(peers, kept, |peers|)
    ensures kept == Kept(peers) && Linked(peers[0], kept)
  {
    hide Value, Kept;
    assert peers[..|peers|] == peers;
    LinkedWhole(kept);
  }

  /** curr.next = peers[i], for the next node kept. */
  method LinkLast(peers: seq<NodeInfo>, ghost kept: seq<NodeInfo>, i: nat, curr: NodeInfo)
    requires Ascending(peers) && KeptSoFar(peers, kept, i) && i < |peers| && curr == kept[|kept| - 1]
    requires Compare(curr.distance, peers[i].distance) != 0
    modifies curr`next
    ensures curr.next == peers[i] && KeptSoFar(peers, kept + [peers[i]], i + 1)
  {
    hide Value, Kept, Ascending, Sorted, Taken;
    KeptNext(peers, i);
    ElemAt(peers, i);
    AscendingPrefix(peers, i);
    KeptFacts(peers[..i]);
    LastDistinct(kept);
    hide Elems;
    curr.next := peers[i];
  }

  lemma KeptRepresented(target: Key, ids: seq<Option<NodeID>>, peers: seq<NodeInfo>, n: seq<NodeInfo>)
    requires ForTarget(target, peers) && Represented(target, ids, peers)
    requires Elems(n) <= Elems(peers) && forall x :: x in Elems(peers) ==> Taken(x, n)
    ensures ForTarget(target, n) && Represented(target, ids, n)
  {
    hide Value;
    assert forall x :: x in n ==> x in Elems(n);
    forall i | 0 <= i < |ids| && Usable(target, ids[i])
      ensures exists x :: x in n && x.id.key == ids[i].value.key
    {
      var x :| x in peers && x.id.key == ids[i].value.key;
      assert x in Elems(peers);
      var y :| y in n && Value(y.distance) == Value(x.distance);
      SameDistance(target, x.id.key, y.id.key);
    }
  }

  /** The new list: one node for every key among the usable ids, nearest first. */
  method SliceToPeerInfos(target: Key, ids: seq<Option<NodeID>>) returns (head: NodeInfo?, ghost n: seq<NodeInfo>)
    ensures Linked(head, n) && Sorted(n) && ForTarget(target, n) && Represented(target, ids, n)
    ensures forall x :: x in Elems(n) ==> fresh(x) && x.status == Queued && Some(x.id) in ids
  {
    hide Value, Sorted, Usable, Taken, ForTarget, Represented, Linked;
    var peers := NewPeers(target, ids);
    if peers == [] {
      NoPeers(target, peers);
      return null, peers;
    }
    head, n := LinkSorted(target, ids, peers);
  }

  method LinkSorted(target: Key, ghost ids: seq<Option<NodeID>>, peers: seq<NodeInfo>)
    returns (head: NodeInfo?, ghost n: seq<NodeInfo>)
    requires peers != [] && ForTarget(target, peers) && Represented(target, ids, peers)
    requires forall x :: x in Elems(peers) ==> x.next == null
    modifies Elems(peers)`next
    ensures Linked(head, n) && Sorted(n) && ForTarget(target, n) && Represented(target, ids, n)
    ensures Elems(n) <= Elems(peers)
  {
    hide Value, Sorted, Ascending, Taken, ForTarget, Represented, Linked, Kept;
    var sorted := SortByDistance(peers);
    assert forall x :: x in Elems(peers) ==> x in peers && x.next == null;
    assert sorted != [] by {
      ElemAt(peers, 0);
    }
    hide Elems;
    KeptFacts(sorted);
    KeptRepresented(target, ids, peers, Kept(sorted));
    n := LinkDistinct(sorted);
    head := sorted[0];
  }

  lemma NoPeers(target: Key, peers: seq<NodeInfo>)
    requires peers == []
    ensures Sorted(peers) && Elems(peers) == {} && ForTarget(target, peers) && Linked(null, peers)
  {}

  lemma SortedNil()
    ensures Sorted([])
  {}

  lemma MergeRepresented(target: Key, ids: seq<Option<NodeID>>, o: seq<NodeInfo>, n: seq<NodeInfo>)
    requires Sorted(o) && Sorted(n) && ForTarget(target, o) && ForTarget(target, n) && Represented(target, ids, n)
    ensures Represented(target, ids, Merge(o, n)) && ForTarget(target, Merge(o, n))
  {
    hide Value, Sorted, Merge;
    MergeFrom(o, n);
    forall i | 0 <= i < |ids| && Usable(target, ids[i])
      ensures exists x :: x in Merge(o, n) && x.id.key == ids[i].value.key
    {
      var x :| x in n && x.id.key == ids[i].value.key;
      MergeMembers(o, n, x);
      if Taken(x, o) {
        var y :| y in o && Value(y.distance) == Value(x.distance);
        MergeMembers(o, n, y);
        SameDistance(target, x.id.key, y.id.key);
      }
    }
  }

  /** The old nodes stay, and a new node that joins has a key no old node has. */
  lemma MergeJoins(target: Key, o: seq<NodeInfo>, n: seq<NodeInfo>)
    requires Sorted(o) && Sorted(n) && ForTarget(target, o) && ForTarget(target, n)
    ensures Elems(o) <= Elems(Merge(o, n)) <= Elems(o) + Elems(n)
    ensures forall x, y :: x in Elems(Merge(o, n)) - Elems(o) && y in Elems(o) ==> x.id.key != y.id.key
  {
    hide Value, Sorted, Merge;
    forall x
      ensures x in Merge(o, n) <==> x in o || (x in n && !Taken(x, o))
    {
      MergeMembers(o, n, x);
    }
    MergeFrom(o, n);
    forall x, y | x in Elems(Merge(o, n)) - Elems(o) && y in Elems(o)
      ensures x.id.key != y.id.key
    {
      SameDistance(target, x.id.key, y.id.key);
    }
  }

  /** popped lists, without repetition, the keys of exactly the nodes that are not queued any more. */
  ghost predicate PoppedOnce(spine: seq<NodeInfo>, popped: seq<Key>)
    reads spine`status
  {
    && (forall x :: x in Elems(spine) ==> (x.status == Queued <==> x.id.key !in popped))
    && (forall i, j :: 0 <= i < j < |popped| ==> popped[i] != popped[j])
    && (forall k :: k in popped ==> exists x :: x in Elems(spine) && x.id.key == k)
  }

  lemma NothingNew(target: Key, ids: seq<Option<NodeID>>, o: seq<NodeInfo>, n: seq<NodeInfo>)
    requires Linked(null, n) && Represented(target, ids, n)
    ensures Represented(target, ids, o)
  {
    hide Usable;
    assert n == [];
  }

  /** Without its first member, q starts further on in s and has one node less there. */
  lemma FirstLeaves(s: seq<NodeInfo>, q: set<NodeInfo>, i: nat)
    requires Sorted(s) && i < |s| && s[i] in q && forall j :: 0 <= j < i ==> s[j] !in q
    ensures FirstIn(s, q - {s[i]}) == FirstIn(s[i..], q - {s[i]}) && CountIn(s, q - {s[i]}) == CountIn(s, q) - 1
    ensures forall x :: x in s && x in q && x != s[i] ==> Value(s[i].distance) < Value(x.distance)
  {
    hide Value;
    LaterIsFarther(s, q, i);
    hide Sorted;
    LeavesCount(s, q, i);
  }

  lemma LaterIsFarther(s: seq<NodeInfo>, q: set<NodeInfo>, i: nat)
    requires Sorted(s) && i < |s| && forall j :: 0 <= j < i ==> s[j] !in q
    ensures forall x :: x in s && x in q && x != s[i] ==> Value(s[i].distance) < Value(x.distance)
    ensures s[i] !in s[..i] && s[i] !in s[i + 1..]
  {
    hide Value;
  }

  lemma LeavesCount(s: seq<NodeInfo>, q: set<NodeInfo>, i: nat)
    requires i < |s| && s[i] in q && (forall j :: 0 <= j < i ==> s[j] !in q) && s[i] !in s[..i] && s[i] !in s[i + 1..]
    ensures FirstIn(s, q - {s[i]}) == FirstIn(s[i..], q - {s[i]}) && CountIn(s, q - {s[i]}) == CountIn(s, q) - 1
  {
    var p, x := q - {s[i]}, s[i];
    assert s == s[..i] + s[i..] && s[i..] == [x] + s[i + 1..];
    InConcat(s[..i], s[i..], q);
    InConcat(s[..i], s[i..], p);
    InConcat([x], s[i + 1..], q);
    InConcat([x], s[i + 1..], p);
    InOne(x, q);
    InOne(x, p);
    hide FirstIn, CountIn;
    FirstInIs(s[..i], p);
    InAgrees(s[..i], q, p);
    InAgrees(s[i + 1..], q, p);
  }

  lemma LinkedTail(s: seq<NodeInfo>, i: nat)
    requires LinkedFrom(s, 0)
    ensures LinkedFrom(s, i)
  {}

  lemma SortedKeys(target: Key, s: seq<NodeInfo>, x: NodeInfo)
    requires Sorted(s) && ForTarget(target, s) && x in Elems(s)
    ensures forall y :: y in Elems(s) && y.id.key == x.id.key ==> y == x
  {
    hide Value;
  }

  lemma MergeNil(n: seq<NodeInfo>)
    ensures Merge([], n) == n
  {}

  lemma PoppedAfterAdd(o: seq<NodeInfo>, m: seq<NodeInfo>, popped: seq<Key>)
    requires PoppedOnce(o, popped) && Elems(o) <= Elems(m)
    requires forall x, y :: x in Elems(m) - Elems(o) && y in Elems(o) ==> x.id.key != y.id.key
    requires forall x :: x in Elems(m) - Elems(o) ==> x.status == Queued
    ensures PoppedOnce(m, popped)
  {
    hide Elems;
  }

  /** The first node with a name, which is how answers are matched to nodes. */
  ghost function FirstNamed(spine: seq<NodeInfo>, name: string): NodeInfo? {
    if spine == [] then null else if spine[0].id.name == name then spine[0] else FirstNamed(spine[1..], name)
  }

  /** Where names are unique per key, an answer reaches the node it belongs to. */
  lemma {:induction false} FirstNamedIs(spine: seq<NodeInfo>, x: NodeInfo)
    requires x in spine && forall y :: y in spine && y.id.name == x.id.name ==> y == x
    ensures FirstNamed(spine, x.id.name) == x
  {
    if spine[0].id.name != x.id.name {
      FirstNamedIs(spine[1..], x);
    }
  }

  /** The merge of o and n into m, with the queued nodes q, after i nodes of o and j nodes of n have been dealt with
      and k nodes of m laid out; newFirst says whether n has the nearer head. */
  datatype Place = Place(o: seq<NodeInfo>, n: seq<NodeInfo>, m: seq<NodeInfo>, q: set<NodeInfo>, newFirst: bool,
                         i: nat, j: nat, k: nat)

  /** Where the merge loop stands: its links, its counters, and the heads of the two rests. */
  ghost predicate Stands(p: Place, prev: NodeInfo?, oldHead: NodeInfo?, newHead: NodeInfo?, currOld: bool,
                         closestQueued: NodeInfo?, reached: bool, count: int)
    reads p.o`next, p.n`next, p.m`next
  {
    && p.i <= |p.o| && p.j <= |p.n| && p.k <= |p.m| && oldHead == At(p.o, p.i) && newHead == At(p.n, p.j)
    && Merging(p.o, p.n, p.m, p.i, p.j, p.k, prev, currOld)
    && (if p.k == 0 then p.i == 0 && p.j == 0 && prev == null && currOld == !p.newFirst else prev != null)
    && QueuedSoFar(p.o, p.m, p.q, p.i, p.k, p.newFirst, closestQueued, reached, count)
  }

  /** What the merge loop works on. */
  ghost predicate Mergeable(p: Place) {
    && Apart(p.o, p.n) && p.m == Merge(p.o, p.n) && Sorted(p.m) && Elems(p.n) <= p.q
    && p.n != [] && p.o != [] && p.m != [] && p.m[0] == (if p.newFirst then p.n[0] else p.o[0])
  }

  /** What is worked on stays the same wherever the loop stands. */
  lemma MergeableAt(p: Place, start: Place)
    requires Mergeable(start) && p == start.(i := p.i, j := p.j, k := p.k)
    ensures Mergeable(p)
  {}

  lemma StandsAtStart(p: Place, oldHead: NodeInfo, newHead: NodeInfo, closestQueued: NodeInfo?)
    requires p.o != [] && p.n != [] && LinkedFrom(p.o, 0) && LinkedFrom(p.n, 0) && p.m == Merge(p.o, p.n)
    requires oldHead == p.o[0] && newHead == p.n[0] && p.i == 0 && p.j == 0 && p.k == 0
    requires p.newFirst == (Compare(p.o[0].distance, p.n[0].distance) > 0)
    requires p.newFirst || closestQueued == FirstIn(p.o, p.q)
    ensures Stands(p, null, oldHead, newHead, !p.newFirst, closestQueued, false, CountIn(p.o, p.q))
    ensures p.m != [] && p.m[0] == if p.newFirst then p.n[0] else p.o[0]
  {
    hide Compare, FirstIn, CountIn, LinkedFrom, Merging;
    QueuedStarts(p.o, p.m, p.q, p.newFirst, closestQueued);
    MergingStarts(p.o, p.n, !p.newFirst);
  }

  lemma StandsAgain(p: Place, prev: NodeInfo?, oldHead: NodeInfo?, newHead: NodeInfo?, currOld: bool,
                    closestQueued: NodeInfo?, reached: bool, count: int)
    requires p.i <= |p.o| && p.j <= |p.n| && 0 < p.k <= |p.m|
    requires oldHead == At(p.o, p.i) && newHead == At(p.n, p.j) && prev != null
    requires Merging(p.o, p.n, p.m, p.i, p.j, p.k, prev, currOld)
    requires QueuedSoFar(p.o, p.m, p.q, p.i, p.k, p.newFirst, closestQueued, reached, count)
    ensures Stands(p, prev, oldHead, newHead, currOld, closestQueued, reached, count)
  {
    hide Merging, QueuedSoFar;
  }

  /** In the first step, the old list's head is the nearer one unless the new list's was. */
  lemma FirstStep(p: Place)
    requires Mergeable(p) && p.i == 0 && p.j == 0
    ensures p.newFirst == (Compare(p.o[0].distance, p.n[0].distance) > 0)
  {
    hide Compare, Sorted, Elems;
    assert p.n[0] in p.n && p.o[0] in p.o;
  }

  /** Before a step: prev is a node of one of the lists, a new node is queued, and the first step takes the
      new head exactly if it was the nearer one at the start. */
  lemma BeforeTake(p: Place, prev: NodeInfo?, oldHead: NodeInfo, newHead: NodeInfo, currOld: bool,
                   closestQueued: NodeInfo?, reached: bool, count: int)
    requires Mergeable(p) && Stands(p, prev, oldHead, newHead, currOld, closestQueued, reached, count)
    ensures prev != null ==> prev in Elems(p.o) + Elems(p.n)
    ensures newHead in p.q && p.i < |p.o| && p.j < |p.n| && oldHead == p.o[p.i] && newHead == p.n[p.j]
    ensures p.k == 0 ==> p.newFirst == (Compare(oldHead.distance, newHead.distance) > 0)
  {
    hide Compare, Value, Sorted, Merging, QueuedSoFar, Merge;
    ElemAt(p.n, p.j);
    PrevIsTaken(p.o, p.n, p.m, p.i, p.j, p.k, prev, currOld);
    if p.k == 0 {
      FirstStep(p);
    }
  }

  /** At the end of the loop, likewise; what is left is all of one rest. */
  lemma BeforeEnd(p: Place, prev: NodeInfo?, oldHead: NodeInfo?, newHead: NodeInfo?, currOld: bool,
                  closestQueued: NodeInfo?, reached: bool, count: int)
    requires Mergeable(p) && Stands(p, prev, oldHead, newHead, currOld, closestQueued, reached, count)
    requires oldHead == null || newHead == null
    ensures Apart(p.o, p.n) && Sorted(p.m) && Elems(p.n) <= p.q && Merging(p.o, p.n, p.m, p.i, p.j, p.k, prev, currOld)
    ensures prev != null && prev in Elems(p.o) + Elems(p.n)
    ensures p.i <= |p.o| && p.j <= |p.n| && 0 < p.k <= |p.m| && oldHead == At(p.o, p.i) && newHead == At(p.n, p.j)
    ensures if oldHead == null then p.i == |p.o| else p.i < |p.o| && p.j == |p.n|
    ensures QueuedSoFar(p.o, p.m, p.q, p.i, p.k, p.newFirst, closestQueued, reached, count)
  {
    hide Value, Sorted, Apart, Merging, QueuedSoFar, Merge;
    PrevIsTaken(p.o, p.n, p.m, p.i, p.j, p.k, prev, currOld);
  }

  lemma CountedAtEnd(p: Place, closestQueued: NodeInfo?, reached: bool, count: int)
    requires p.i <= |p.o| && p.j <= |p.n| && 0 < p.k <= |p.m| && Elems(p.n) <= p.q
    requires QueuedSoFar(p.o, p.m, p.q, p.i, p.k, p.newFirst, closestQueued, reached, count)
    requires p.m[p.k..] == if p.i == |p.o| then p.n[p.j..] else p.o[p.i..]
    ensures (if p.i < |p.o| || reached then closestQueued else At(p.n, p.j)) == FirstIn(p.m, p.q)
    ensures count + (if p.i < |p.o| then 0 else |p.n| - p.j) == CountIn(p.m, p.q)
  {
    hide FirstIn, CountIn, QueuedSoFar;
    QueuedAtEnd(p.o, p.m, p.q, p.i, p.k, p.newFirst, closestQueued, reached, count);
  }

  class PeerList {
    const target: Key
    var closest: NodeInfo?
    var closestQueued: NodeInfo?
    var queuedCount: int
    ghost var spine: seq<NodeInfo>
    /** The keys of the peers popped so far, in order. */
    ghost var popped: seq<Key>

    ghost predicate Valid()
      reads this, spine
    {
      && Linked(closest, spine) && Sorted(spine) && ForTarget(target, spine)
      && closestQueued == FirstIn(spine, QueuedIn(spine)) && queuedCount == CountIn(spine, QueuedIn(spine))
      && PoppedOnce(spine, popped)
    }

    constructor (target: Key)
      ensures Valid() && this.target == target && spine == [] && popped == []
    {
      this.target, closest, closestQueued, queuedCount, spine, popped := target, null, null, 0, [], [];
    }

    /** Add a batch of ids: the list becomes the union by key, still nearest first; the nodes it had keep
        their place in it and their status, and the new ones are queued. */
    method AddToPeerlist(ids: seq<Option<NodeID>>)
      requires Valid()
      modifies this`closest, this`closestQueued, this`queuedCount, this`spine, Elems(spine)`next
      ensures Valid() && Elems(old(spine)) <= Elems(spine) && Represented(target, ids, spine)
      ensures forall x :: x in Elems(spine) - Elems(old(spine)) ==> fresh(x) && x.status == Queued && Some(x.id) in ids
    {
      hide Value, Sorted, Represented, ForTarget, Merge, FirstIn, CountIn, LinkedFrom, Usable, PoppedOnce;
      var head, n := SliceToPeerInfos(target, ids);
      ghost var o := spine;
      if head == null {
        NothingNew(target, ids, o, n);
        return;
      }
      assert forall i :: 0 <= i < |n| ==> n[i] in Elems(n);
      if closest == null {
        AllIn(o, QueuedIn(o));
        closest, closestQueued := head, head;
        CountNew(head, n, 0);
        spine := n;
        AllIn(n, QueuedIn(n));
      } else {
        MergeIn(head, n);
        MergeRepresented(target, ids, o, n);
        MergeSorted(o, n);
      }
      MergeJoins(target, o, n);
      assert spine == Merge(o, n) by {
        MergeNil(n);
      }
      PoppedAfterAdd(o, spine, popped);
    }

    /** The peer to ask next: the nearest one that is queued, which is waiting from then on. */
    method PopClosestQueued() returns (id: Option<NodeID>, ghost pi: NodeInfo?)
      requires Valid()
      modifies this`closestQueued, this`queuedCount, this`popped, spine`status
      ensures Valid() && (id.Some? <==> pi != null)
      ensures pi == null ==> forall x :: x in Elems(spine) ==> x.status == old(x.status) != Queued
      ensures pi == null ==> popped == old(popped)
      ensures pi != null ==> pi in Elems(spine) && id.value == pi.id && old(pi.status) == Queued && pi.status == Waiting
      ensures pi != null ==> forall x :: x in Elems(spine) && x != pi ==> x.status == old(x.status)
      ensures pi != null ==>
        forall x :: x in Elems(spine) && x.status == Queued ==> Value(pi.distance) < Value(x.distance)
      ensures pi != null ==> popped == old(popped) + [pi.id.key] && pi.id.key !in old(popped)
      ensures pi == null <==> old(queuedCount) == 0
      ensures queuedCount == old(queuedCount) - if pi != null then 1 else 0
    {
      hide Value, Sorted, ForTarget, LinkedFrom, FirstIn, CountIn, PoppedOnce;
      pi := closestQueued;
      ghost var q := QueuedIn(spine);
      FirstInIs(spine, q);
      if closestQueued == null {
        return None, pi;
      }
      ghost var i :| 0 <= i < |spine| && spine[i] == pi && spine[i] in q && forall j :: 0 <= j < i ==> spine[j] !in q;
      FirstLeaves(spine, q, i);
      LinkedTail(spine, i);
      SortedKeys(target, spine, pi);
      var curr := closestQueued;
      id := Some(curr.id);
      Pop(curr);
      assert QueuedIn(spine) == q - {pi};
      closestQueued := FindNextQueued(curr, i);
    }

    /** The node is waiting from now on. */
    method Pop(pi: NodeInfo)
      requires pi in Elems(spine) && pi.status == Queued && PoppedOnce(spine, popped)
      requires forall x :: x in Elems(spine) && x.id.key == pi.id.key ==> x == pi
      modifies this`queuedCount, this`popped, pi`status
      ensures pi.status == Waiting && queuedCount == old(queuedCount) - 1
      ensures popped == old(popped) + [pi.id.key] && pi.id.key !in old(popped) && PoppedOnce(spine, popped)
    {
      hide Elems;
      pi.status := Waiting;
      queuedCount := queuedCount - 1;
      popped := popped + [pi.id.key];
    }

    /** An answer came: the node it is matched to by name has been queried, if it was waiting. */
    method QueriedPeer(id: NodeID)
      requires Valid()
      modifies spine`status
      ensures Valid()
      ensures forall x :: x in Elems(spine) ==>
        x.status == if x == FirstNamed(spine, id.name) && old(x.status) == Waiting then Queried else old(x.status)
    {
      var curr := FindNamed(id.name);
      if curr != null {
        Answer(curr, Queried);
      }
    }

    /** No answer came: likewise. */
    method UnreachablePeer(id: NodeID)
      requires Valid()
      modifies spine`status
      ensures Valid()
      ensures forall x :: x in Elems(spine) ==>
        x.status == if x == FirstNamed(spine, id.name) && old(x.status) == Waiting then Unreachable else old(x.status)
    {
      var curr := FindNamed(id.name);
      if curr != null {
        Answer(curr, Unreachable);
      }
    }

    method Answer(curr: NodeInfo, status: Status)
      requires Valid() && curr in Elems(spine) && (status == Queried || status == Unreachable)
      modifies curr`status
      ensures Valid() && curr.status == if old(curr.status) == Waiting then status else old(curr.status)
    {
      hide Value, Sorted, ForTarget, LinkedFrom, FirstIn, CountIn, Elems;
      ghost var q := QueuedIn(spine);
      if curr.status == Waiting {
        curr.status := status;
      }
      assert QueuedIn(spine) == q;
    }

    /** The walk that matches an answer to a node by name. */
    method FindNamed(name: string) returns (curr: NodeInfo?)
      requires Valid()
      ensures curr == FirstNamed(spine, name) && (curr != null ==> curr in Elems(spine))
    {
      hide Value, Sorted, FirstIn, CountIn, PoppedOnce, ForTarget;
      curr := closest;
      ghost var k := 0;
      assert spine[0..] == spine;
      while curr != null && curr.id.name != name
        invariant k <= |spine| && curr == At(spine, k) && FirstNamed(spine, name) == FirstNamed(spine[k..], name)
        decreases |spine| - k
      {
        assert spine[k..][1..] == spine[k + 1..];
        curr := curr.next;
        k := k + 1;
      }
    }

    /** The first queued node from the i-th on. */
    method FindNextQueued(pi: NodeInfo, ghost i: nat) returns (curr: NodeInfo?)
      requires LinkedFrom(spine, i) && i < |spine| && spine[i] == pi
      ensures curr == FirstIn(spine[i..], QueuedIn(spine))
    {
      curr := pi;
      ghost var k := i;
      while curr != null && curr.status != Queued
        invariant i <= k <= |spine| && curr == At(spine, k)
        invariant FirstIn(spine[i..], QueuedIn(spine)) == FirstIn(spine[k..], QueuedIn(spine))
        decreases |spine| - k
      {
        assert spine[k..][1..] == spine[k + 1..];
        curr := curr.next;
        k := k + 1;
      }
    }

    /** The merge loop: the sorted nodes of n join the list, except those whose distance the list has. */
    method MergeIn(first: NodeInfo, ghost n: seq<NodeInfo>)
      requires Valid() && spine != []
      requires Linked(first, n) && Sorted(n) && n != [] && (forall x :: x in n ==> x.status == Queued && x !in spine)
      modifies this`closest, this`closestQueued, this`queuedCount, this`spine, Elems(spine)`next, Elems(n)`next
      ensures spine == Merge(old(spine), n) && Linked(closest, spine)
      ensures closestQueued == FirstIn(spine, QueuedIn(spine)) && queuedCount == CountIn(spine, QueuedIn(spine))
    {
      hide Value, FirstIn, CountIn, Merge;
      ghost var o := spine;
      ghost var m := Merge(o, n);
      ghost var q := QueuedIn(o) + Elems(n);
      InAgrees(o, q, QueuedIn(o));
      MergeSorted(o, n);
      Weave(first, o, n, m, q);
      hide Sorted, LinkedFrom;
      spine := m;
      MergeFrom(o, n);
      InAgrees(m, q, QueuedIn(m));
    }

    /** The loop itself. */
    method Weave(first: NodeInfo, ghost o: seq<NodeInfo>, ghost n: seq<NodeInfo>, ghost m: seq<NodeInfo>,
                 ghost q: set<NodeInfo>)
      requires o != [] && n != [] && Linked(closest, o) && Linked(first, n) && Apart(o, n) && m == Merge(o, n)
      requires Sorted(m)
      requires Elems(n) <= q && closestQueued == FirstIn(o, q) && queuedCount == CountIn(o, q)
      modifies this`closest, this`closestQueued, this`queuedCount, Elems(o)`next, Elems(n)`next
      ensures Linked(closest, m) && closestQueued == FirstIn(m, q) && queuedCount == CountIn(m, q)
    {
      hide Value, Compare, Sorted, Apart, FirstIn, CountIn, QueuedSoFar, Ahead, Covered, Merge, LinkedUpTo, Elems;
      var oldHead, newHead := closest, first;
      var prev: NodeInfo? := null;
      var currOld, closestQueuedReached := true, false;
      var newFirst := Compare(oldHead.distance, newHead.distance) > 0;
      if newFirst {
        closest, closestQueued, currOld := newHead, newHead, false;
      }
      ghost var p := Place(o, n, m, q, newFirst, 0, 0, 0);
      StandsAtStart(p, oldHead, newHead, closestQueued);
      ghost var start := p;
      assert Mergeable(start);
      hide *;
      while oldHead != null && newHead != null
        invariant Stands(p, prev, oldHead, newHead, currOld, closestQueued, closestQueuedReached, queuedCount)
        invariant p == start.(i := p.i, j := p.j, k := p.k) && m != [] && closest == m[0]
        invariant p.i <= |o| && p.j <= |n|
        decreases |o| - p.i + |n| - p.j
      {
        MergeableAt(p, start);
        if Compare(oldHead.distance, newHead.distance) > 0 {
          currOld, closestQueuedReached := TakeNew(prev, oldHead, newHead, currOld, closestQueuedReached, p);
          prev := newHead;
          newHead := newHead.next;
          p := p.(j := p.j + 1);
        } else {
          currOld, closestQueuedReached := TakeOld(prev, oldHead, newHead, currOld, closestQueuedReached, p);
          if Compare(oldHead.distance, newHead.distance) == 0 {
            newHead := newHead.next;
            p := p.(j := p.j + 1);
          }
          prev := oldHead;
          oldHead := oldHead.next;
          p := p.(i := p.i + 1);
        }
        p := p.(k := p.k + 1);
      }
      MergeableAt(p, start);
      AppendRest(prev, oldHead, newHead, currOld, closestQueuedReached, p);
      LinkedFromFirst(closest, m);
    }

    /** The head of the new list is the nearer one: it comes next. */
    method TakeNew(prev: NodeInfo?, oldHead: NodeInfo, newHead: NodeInfo, currOld: bool, reached: bool,
                   ghost p: Place)
      returns (currOld': bool, reached': bool)
      requires Mergeable(p) && Stands(p, prev, oldHead, newHead, currOld, closestQueued, reached, queuedCount)
      requires Compare(oldHead.distance, newHead.distance) > 0
      modifies this`closestQueued, this`queuedCount, Elems(p.o)`next, Elems(p.n)`next
      ensures p.j < |p.n|
      ensures Stands(p.(j := p.j + 1, k := p.k + 1), newHead, oldHead, newHead.next, currOld', closestQueued, reached',
                     queuedCount)
    {
      hide Value, Compare, Sorted, Apart, FirstIn, CountIn, QueuedSoFar, Ahead, Covered, Merge;
      hide LinkedUpTo, Elems, Merging, LinkedFrom;
      BeforeTake(p, prev, oldHead, newHead, currOld, closestQueued, reached, queuedCount);
      currOld', reached' := currOld, reached;
      if currOld && prev != null {
        Relink(prev, newHead, p, currOld);
        currOld' := false;
      }
      MergingTakeNew(p.o, p.n, p.m, p.i, p.j, p.k, prev);
      hide Stands;
      reached' := CountQueued(newHead, reached, p);
      StandsAgain(p.(j := p.j + 1, k := p.k + 1), newHead, oldHead, newHead.next, currOld', closestQueued, reached',
                  queuedCount);
    }

    /** A new node has been laid out: it is queued, and the nearest queued one if there was none before it. */
    method CountQueued(newHead: NodeInfo, reached: bool, ghost p: Place) returns (reached': bool)
      requires p.i <= |p.o| && p.k < |p.m| && p.m[p.k] == newHead && newHead in p.q
      requires QueuedSoFar(p.o, p.m, p.q, p.i, p.k, p.newFirst, closestQueued, reached, queuedCount)
      modifies this`closestQueued, this`queuedCount
      ensures QueuedSoFar(p.o, p.m, p.q, p.i, p.k + 1, p.newFirst, closestQueued, reached', queuedCount)
    {
      hide *;
      QueuedTakeNew(p.o, p.m, p.q, p.i, p.k, p.newFirst, closestQueued, reached, queuedCount);
      reached' := reached;
      if !reached {
        closestQueued, reached' := newHead, true;
      }
      queuedCount := queuedCount + 1;
    }

    /** The head of the old list is not farther: it comes next. */
    method TakeOld(prev: NodeInfo?, oldHead: NodeInfo, newHead: NodeInfo, currOld: bool, reached: bool,
                   ghost p: Place)
      returns (currOld': bool, reached': bool)
      requires Mergeable(p) && Stands(p, prev, oldHead, newHead, currOld, closestQueued, reached, queuedCount)
      requires Compare(oldHead.distance, newHead.distance) <= 0
      modifies Elems(p.o)`next, Elems(p.n)`next
      ensures p.i < |p.o| && p.j < |p.n|
      ensures var tie := Compare(oldHead.distance, newHead.distance) == 0;
        Stands(p.(i := p.i + 1, j := if tie then p.j + 1 else p.j, k := p.k + 1), oldHead, oldHead.next,
               if tie then newHead.next else newHead, currOld', closestQueued, reached', queuedCount)
    {
      hide Value, Compare, Sorted, Apart, FirstIn, CountIn, QueuedSoFar, Ahead, Covered, Merge;
      hide LinkedUpTo, Elems, Merging, LinkedFrom;
      BeforeTake(p, prev, oldHead, newHead, currOld, closestQueued, reached, queuedCount);
      currOld', reached' := currOld, reached;
      if !currOld && prev != null {
        Relink(prev, oldHead, p, currOld);
        currOld' := true;
      }
      MergingTakeOld(p.o, p.n, p.m, p.i, p.j, p.k, prev);
      QueuedTakeOld(p.o, p.m, p.q, p.i, p.k, p.newFirst, closestQueued, reached, queuedCount);
      if !reached && oldHead == closestQueued {
        reached' := true;
      }
    }

    /** One of the two lists has run out: the rest of the other goes to the end. */
    method AppendRest(prev: NodeInfo?, oldHead: NodeInfo?, newHead: NodeInfo?, currOld: bool,
                      closestQueuedReached: bool, ghost p: Place)
      requires Mergeable(p)
      requires Stands(p, prev, oldHead, newHead, currOld, closestQueued, closestQueuedReached, queuedCount)
      requires oldHead == null || newHead == null
      modifies this`closestQueued, this`queuedCount, Elems(p.o)`next, Elems(p.n)`next
      ensures LinkedFrom(p.m, 0) && closestQueued == FirstIn(p.m, p.q) && queuedCount == CountIn(p.m, p.q)
    {
      BeforeEnd(p, prev, oldHead, newHead, currOld, closestQueued, closestQueuedReached, queuedCount);
      hide *;
      if oldHead == null {
        Relink(prev, newHead, p, currOld);
        CountedAtEnd(p, closestQueued, closestQueuedReached, queuedCount);
        CountRest(newHead, closestQueuedReached, p);
      } else {
        Relink(prev, oldHead, p, currOld);
        CountedAtEnd(p, closestQueued, closestQueuedReached, queuedCount);
      }
    }

    /** The nodes left in the new list are queued, and the first of them is the nearest queued one if none came
        before it. */
    method CountRest(newHead: NodeInfo?, reached: bool, ghost p: Place)
      requires p.j <= |p.n| && newHead == At(p.n, p.j) && LinkedFrom(p.n, p.j)
      modifies this`closestQueued, this`queuedCount
      ensures closestQueued == if reached then old(closestQueued) else newHead
      ensures queuedCount == old(queuedCount) + |p.n| - p.j
    {
      hide *;
      if !reached {
        closestQueued := newHead;
      }
      CountNew(newHead, p.n, p.j);
    }

    /** Every node of n from the j-th on is queued. */
    method CountNew(head: NodeInfo?, ghost n: seq<NodeInfo>, ghost j: nat)
      requires j <= |n| && head == At(n, j) && LinkedFrom(n, j)
      modifies this`queuedCount
      ensures queuedCount == old(queuedCount) + |n| - j
    {
      var curr := head;
      ghost var l := j;
      while curr != null
        invariant j <= l <= |n| && curr == At(n, l) && queuedCount == old(queuedCount) + l - j
        decreases |n| - l
      {
        queuedCount := queuedCount + 1;
        curr := curr.next;
        l := l + 1;
      }
    }

    /** prev.next = x, where prev is the last node laid out and x the head of the rest that comes next. */
    method Relink(prev: NodeInfo, x: NodeInfo?, ghost p: Place, ghost currOld: bool)
      requires Apart(p.o, p.n) && Sorted(p.m) && Merging(p.o, p.n, p.m, p.i, p.j, p.k, prev, currOld)
      requires p.i < |p.o| && p.j < |p.n| ==> x == if currOld then p.n[p.j] else p.o[p.i]
      requires p.i == |p.o| || p.j == |p.n| ==> x == if p.i == |p.o| then At(p.n, p.j) else At(p.o, p.i)
      modifies prev`next
      ensures prev.next == x && LinkedFrom(p.n, p.j)
      ensures p.i < |p.o| && p.j < |p.n| ==> Merging(p.o, p.n, p.m, p.i, p.j, p.k, prev, !currOld)
      ensures p.i == |p.o| || p.j == |p.n| ==>
        p.m[p.k..] == (if p.i == |p.o| then p.n[p.j..] else p.o[p.i..]) && LinkedFrom(p.m, 0)
    {
      hide Sorted, Apart;
      LastIsFree(p.o, p.n, p.m, p.i, p.j, p.k);
      hide Covered, Merge;
      prev.next := x;
      if p.i == |p.o| || p.j == |p.n| {
        LinkedAtEnd(p.o, p.n, p.m, p.i, p.j, p.k);
      }
    }
  }
}
