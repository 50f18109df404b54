/** The probe's pending list: a slice kept as a binary heap whose entries know their own position.
    The heap operations are those of Go's container/heap. */
module PendingHeaps {
  import opened Keys
  import opened Times

  /** What is known about a node's connectivity checks. */
  datatype NodeValue = NodeValue(id: Key, cpl: nat, nextCheckDue: Time, checkDeadline: Time)

  /** a is checked before b: it is due sooner, or at the same time and nearer to the table's key. */
  predicate Sooner(a: NodeValue, b: NodeValue) {
    if a.nextCheckDue == b.nextCheckDue then a.cpl > b.cpl else a.nextCheckDue < b.nextCheckDue
  }

  class Entry {
    var nv: NodeValue
    var index: int

    constructor (nv: NodeValue)
      ensures this.nv == nv && index == 0
    {
      this.nv, index := nv, 0;
    }
  }

  function Parent(j: nat): (p: nat)
    ensures j > 0 ==> p < j
  {
    if j == 0 then 0 else (j - 1) / 2
  }

  /** Position l of a heap is in order with its parent. */
  ghost predicate InOrder(v: seq<NodeValue>, l: nat)
    requires l < |v|
  {
    l == 0 || !Sooner(v[l], v[Parent(l)])
  }

  ghost predicate Heap(v: seq<NodeValue>) {
    forall l :: 0 <= l < |v| ==> InOrder(v, l)
  }

  /** A heap but for position k: the rest is in order, and stays so across k. */
  ghost predicate HeapBut(v: seq<NodeValue>, k: nat) {
    && (forall l :: 0 <= l < |v| && l != k && Parent(l) != k ==> InOrder(v, l))
    && (forall l :: 0 < l < |v| && l != k && Parent(l) == k < |v| ==> !Sooner(v[l], v[Parent(k)]) || k == 0)
  }

  ghost function Swapped<T>(s: seq<T>, i: nat, j: nat): (r: seq<T>)
    requires i < |s| && j < |s|
    ensures |r| == |s|
  {
    s[i := s[j]][j := s[i]]
  }

  /** Nothing in a heap is sooner than its first element. */
  lemma {:induction false} HeapMin(v: seq<NodeValue>, l: nat)
    requires Heap(v) && l < |v|
    ensures !Sooner(v[l], v[0])
  {
    if l > 0 {
      HeapMin(v, Parent(l));
      assert InOrder(v, l);
    }
  }

  /** A heap is a heap but for any position, whatever is put there. */
  lemma HeapButOne(v: seq<NodeValue>, k: nat, x: NodeValue)
    requires Heap(v) && k < |v|
    ensures HeapBut(v[k := x], k)
  {
    var w := v[k := x];
    assert InOrder(v, k);
    forall l | 0 <= l < |v| && l != k
      ensures Parent(l) != k ==> InOrder(w, l)
      ensures Parent(l) == k && l > 0 ==> !Sooner(w[l], w[Parent(k)]) || k == 0
    {
      assert InOrder(v, l);
    }
  }

  lemma HeapButAny(v: seq<NodeValue>, k: nat, x: NodeValue)
    requires HeapBut(v, k) && k < |v|
    ensures HeapBut(v[k := x], k)
  {
    var w := v[k := x];
    forall l | 0 <= l < |v| && l != k && Parent(l) != k
      ensures InOrder(w, l)
    {
      assert InOrder(v, l);
    }
    assert k > 0 ==> Parent(k) != k;
  }

  /** Swapping k with its parent, which it is sooner than, moves the disorder up. */
  lemma UpStep(v: seq<NodeValue>, k: nat)
    requires HeapBut(v, k) && 0 < k < |v| && Sooner(v[k], v[Parent(k)])
    requires forall l :: 0 < l < |v| && Parent(l) == k ==> InOrder(v, l)
    ensures var w := Swapped(v, Parent(k), k);
      HeapBut(w, Parent(k)) && forall l :: 0 < l < |v| && Parent(l) == Parent(k) ==> InOrder(w, l)
  {
  }

  /** Swapping k with its soonest child, which is sooner than it, moves the disorder down. */
  lemma DownStep(v: seq<NodeValue>, k: nat, c: nat)
    requires HeapBut(v, k) && 0 < c < |v| && Parent(c) == k && k < c && Sooner(v[c], v[k])
    requires forall l :: 0 < l < |v| && Parent(l) == k ==> !Sooner(v[l], v[c])
    ensures var w := Swapped(v, k, c); HeapBut(w, c) && InOrder(w, c) && InOrder(w, k)
  {
  }

  /** The disorder at k has nowhere left to go. */
  lemma Settled(v: seq<NodeValue>, k: nat)
    requires HeapBut(v, k) && (k < |v| ==> InOrder(v, k)) && forall l :: 0 < l < |v| && Parent(l) == k ==> InOrder(v, l)
    ensures Heap(v)
  {}

  lemma KeepsOrder(v: seq<NodeValue>, k: nat)
    requires k < |v| && (Parent(k) == k || !Sooner(v[k], v[Parent(k)]))
    ensures InOrder(v, k)
  {}

  /** Below the last parent there is nothing to be out of order. */
  lemma NoChild(v: seq<NodeValue>, i: nat)
    requires 2 * i + 1 >= |v|
    ensures forall l :: 0 < l < |v| && Parent(l) == i ==> InOrder(v, l)
  {}

  /** The left child, or the right one if that is sooner, is a soonest child; if it is not sooner than the
      parent, no child is. */
  lemma SoonestChild(v: seq<NodeValue>, i: nat, j: nat)
    requires 2 * i + 1 < |v|
    requires j == if 2 * i + 2 < |v| && Sooner(v[2 * i + 2], v[2 * i + 1]) then 2 * i + 2 else 2 * i + 1
    ensures i < j < |v| && Parent(j) == i && forall l :: 0 < l < |v| && Parent(l) == i ==> !Sooner(v[l], v[j])
    ensures !Sooner(v[j], v[i]) ==> forall l :: 0 < l < |v| && Parent(l) == i ==> InOrder(v, l)
  {
    assert forall l :: 0 < l < |v| && Parent(l) == i ==> l == 2 * i + 1 || l == 2 * i + 2;
  }

  ghost function Values(entries: seq<Entry>): (v: seq<NodeValue>)
    reads entries`nv
    ensures |v| == |entries| && forall i :: 0 <= i < |v| ==> v[i] == entries[i].nv
  {
    if entries == [] then [] else [entries[0].nv] + Values(entries[1..])
  }

  lemma ValuesAppend(entries: seq<Entry>, x: Entry)
    ensures Values(entries + [x]) == Values(entries) + [x.nv]
  {}

  lemma ValuesPrefix(entries: seq<Entry>, n: nat)
    requires n <= |entries|
    ensures Values(entries)[..n] == Values(entries[..n])
  {}

  lemma ValuesWhole(entries: seq<Entry>)
    ensures Values(entries)[..|entries|] == Values(entries)
  {}

  /** Once entry i is swapped to the end, the others are the list without it. */
  lemma LastOut(entries: seq<Entry>, i: nat)
    requires i < |entries| && Indexed(entries)
    ensures var s := Swapped(entries, i, |entries| - 1);
      s[|entries| - 1] == entries[i] && Members(s[..|entries| - 1]) == Members(entries) - {entries[i]}
  {
    var n := |entries| - 1;
    var s := Swapped(entries, i, n);
    assert s == s[..n] + [entries[i]];
    SwappedMembers(entries, i, n);
    assert entries[i] !in s[..n];
  }

  lemma LastOutOrder(v: seq<NodeValue>, i: nat)
    requires i < |v| && HeapBut(v, i)
    ensures var n := |v| - 1; if i == n then Heap(v[..n]) else HeapBut(Swapped(v, i, n)[..n], i)
  {
    var n := |v| - 1;
    var w := Swapped(v, i, n)[..n];
    forall l | 0 <= l < n && l != i && Parent(l) != i
      ensures InOrder(w, l)
    {
      assert InOrder(v, l);
    }
  }

  lemma HeapAppend(v: seq<NodeValue>, x: NodeValue)
    requires Heap(v)
    ensures HeapBut(v + [x], |v|)
  {
    var w := v + [x];
    forall l | 0 <= l < |v|
      ensures InOrder(w, l)
    {
      assert InOrder(v, l);
    }
    assert forall l :: 0 <= l < |v| ==> Parent(l) != |v|;
  }

  /** Every entry knows its position; so no entry is listed twice. */
  ghost predicate Indexed(entries: seq<Entry>)
    reads entries`index
  {
    forall i :: 0 <= i < |entries| ==> entries[i].index == i
  }

  ghost function Members(entries: seq<Entry>): set<Entry> {
    set e | e in entries
  }

  lemma SwappedPrefix<T>(s: seq<T>, i: nat, j: nat, n: nat)
    requires i < n <= |s| && j < n
    ensures Swapped(s, i, j)[..n] == Swapped(s[..n], i, j) && Swapped(s, i, j)[n..] == s[n..]
  {}

  lemma IsMember(entries: seq<Entry>, i: nat)
    requires i < |entries|
    ensures entries[i] in Members(entries)
  {}

  lemma MemberIndex(entries: seq<Entry>, e: Entry)
    requires Indexed(entries) && e in Members(entries)
    ensures 0 <= e.index < |entries| && entries[e.index] == e
  {}

  lemma EmptyHeap()
    ensures Heap(Values([]))
  {}

  lemma SwappedMembers(entries: seq<Entry>, i: nat, j: nat)
    requires i < |entries| && j < |entries|
    ensures Members(Swapped(entries, i, j)) == Members(entries)
  {
    var s := Swapped(entries, i, j);
    forall e | e in entries
      ensures e in s
    {
      var p :| 0 <= p < |entries| && entries[p] == e;
      assert s[if p == i then j else if p == j then i else p] == e;
    }
  }

  class PendingList {
    var entries: seq<Entry>

    ghost predicate Valid()
      reads this, entries
    {
      Indexed(entries) && Heap(Values(entries))
    }

    constructor ()
      ensures Valid() && entries == []
    {
      entries := [];
    }

    predicate Less(i: nat, j: nat)
      requires i < |entries| && j < |entries|
      reads this, entries`nv
    {
      Sooner(entries[i].nv, entries[j].nv)
    }

    /** Exchange two entries and their positions. This panics, as indexing a slice does, unless both are in
        the list. */
    method Swap(i: int, j: int) returns (ok: bool)
      requires Indexed(entries)
      modifies this, Members(entries)`index
      ensures ok <==> 0 <= i < |old(entries)| && 0 <= j < |old(entries)|
      ensures Indexed(entries) && Members(entries) == old(Members(entries))
      ensures ok ==> entries == Swapped(old(entries), i, j) && Values(entries) == Swapped(old(Values(entries)), i, j)
      ensures !ok ==> entries == old(entries)
    {
      hide *;
      ok := 0 <= i < |entries| && 0 <= j < |entries|;
      if ok {
        Exchange(i, j);
      }
    }

    method Exchange(i: nat, j: nat)
      requires i < |entries| && j < |entries| && Indexed(entries)
      modifies this, Members(entries)`index
      ensures Indexed(entries) && entries == Swapped(old(entries), i, j)
      ensures Values(entries) == Swapped(old(Values(entries)), i, j) && Members(entries) == old(Members(entries))
    {
      SwappedMembers(entries, i, j);
      entries := entries[i := entries[j]][j := entries[i]];
      entries[i].index := i;
      entries[j].index := j;
    }

    /** Append an entry. */
    method Push(x: Entry)
      requires Indexed(entries) && x !in entries
      modifies this, x`index
      ensures Indexed(entries) && entries == old(entries) + [x]
    {
      x.index := |entries|;
      entries := entries + [x];
    }

    /** Cut off the last entry, which has no position from then on. */
    method Pop() returns (v: Entry?)
      requires Indexed(entries)
      modifies this, (if entries == [] then {} else {entries[|entries| - 1]})`index
      ensures Indexed(entries) && (v == null <==> old(entries) == [])
      ensures v == null ==> entries == old(entries)
      ensures v != null ==>
        entries == old(entries)[..|old(entries)| - 1] && v == old(entries)[|old(entries)| - 1] && v.index == -1
    {
      if entries == [] {
        return null;
      }
      v := entries[|entries| - 1];
      v.index := -1;
      entries := entries[..|entries| - 1];
    }

    /** Move entry j up until its parent is not later. It stays among the first n, the only ones that are
        compared. */
    method Up(j: nat, ghost n: nat)
      requires j < n <= |entries| && Indexed(entries) && HeapBut(Values(entries)[..n], j)
      requires forall l :: 0 < l < n && Parent(l) == j ==> InOrder(Values(entries)[..n], l)
      modifies this, Members(entries)`index
      ensures Indexed(entries) && |entries| == old(|entries|) && Heap(Values(entries)[..n])
      ensures Members(entries) == old(Members(entries)) && Members(entries[..n]) == old(Members(entries[..n]))
      ensures entries[n..] == old(entries)[n..]
    {
      hide HeapBut, Heap, InOrder, Values, Members, Indexed;
      var k: nat := j;
      while true
        invariant k < n <= |entries| && Indexed(entries) && HeapBut(Values(entries)[..n], k)
        invariant forall l :: 0 < l < n && Parent(l) == k ==> InOrder(Values(entries)[..n], l)
        invariant Members(entries) == old(Members(entries)) && |entries| == old(|entries|)
        invariant Members(entries[..n]) == old(Members(entries[..n])) && entries[n..] == old(entries)[n..]
        decreases k
      {
        var i := Parent(k);
        if i == k || !Less(k, i) {
          KeepsOrder(Values(entries)[..n], k);
          Settled(Values(entries)[..n], k);
          break;
        }
        UpStep(Values(entries)[..n], k);
        SwapWithin(i, k, n);
        k := i;
      }
    }

    /** Move entry i0 down, among the first n, until its children are not sooner; whether it moved. */
    method Down(i0: nat, n: nat) returns (moved: bool)
      requires i0 < n <= |entries| && Indexed(entries) && HeapBut(Values(entries)[..n], i0)
      modifies this, Members(entries)`index
      ensures Indexed(entries) && Members(entries) == old(Members(entries)) && |entries| == old(|entries|)
      ensures entries[n..] == old(entries)[n..] && Members(entries[..n]) == old(Members(entries[..n]))
      ensures moved ==> Heap(Values(entries)[..n])
      ensures !moved ==>
        entries == old(entries) && forall l :: 0 < l < n && Parent(l) == i0 ==> InOrder(Values(entries)[..n], l)
    {
      hide HeapBut, Heap, InOrder, Values, Members, Indexed;
      var i: nat := i0;
      while true
        invariant i0 <= i < n <= |entries| && Indexed(entries) && HeapBut(Values(entries)[..n], i)
        invariant if i == i0 then entries == old(entries) else InOrder(Values(entries)[..n], i)
        invariant Members(entries) == old(Members(entries)) && |entries| == old(|entries|)
        invariant entries[n..] == old(entries)[n..] && Members(entries[..n]) == old(Members(entries[..n]))
        decreases n - i
      {
        ghost var v := Values(entries)[..n];
        var j1 := 2 * i + 1;
        if j1 >= n {
          NoChild(v, i);
          break;
        }
        var j := j1;
        var j2 := j1 + 1;
        if j2 < n && Less(j2, j1) {
          j := j2;
        }
        SoonestChild(v, i, j);
        if !Less(j, i) {
          break;
        }
        DownStep(v, i, j);
        SwapWithin(i, j, n);
        i := j;
      }
      moved := i > i0;
      if moved {
        Settled(Values(entries)[..n], i);
      }
    }

    /** A swap among the first n entries. */
    method SwapWithin(i: nat, j: nat, ghost n: nat)
      requires i < n <= |entries| && j < n && Indexed(entries)
      modifies this, Members(entries)`index
      ensures Indexed(entries) && |entries| == old(|entries|)
      ensures Values(entries)[..n] == Swapped(old(Values(entries))[..n], i, j)
      ensures Members(entries) == old(Members(entries)) && Members(entries[..n]) == old(Members(entries[..n]))
      ensures entries[n..] == old(entries)[n..]
    {
      SwappedPrefix(entries, i, j, n);
      SwappedPrefix(Values(entries), i, j, n);
      SwappedMembers(entries[..n], i, j);
      hide Swapped, Values, Members, Indexed;
      var _ := Swap(i, j);
    }

    /** heap.Remove: entry i gives way to the last one, which then moves to its place. A position outside the
        list panics in Swap, except that -1 goes through if the list is empty. */
    method HeapRemove(i: int) returns (ok: bool, x: Entry?)
      requires Indexed(entries) && (0 <= i < |entries| ==> HeapBut(Values(entries), i))
      modifies this, Members(entries)`index
      ensures ok <==> 0 <= i < |old(entries)| || (i == -1 && old(entries) == [])
      ensures ok ==> Valid() && (i < 0 ==> entries == [])
      ensures ok && i >= 0 ==> x == old(entries)[i] && x.index == -1 && Members(entries) == old(Members(entries)) - {x}
    {
      hide HeapBut, Heap, Values, Members, Indexed;
      x := null;
      if 0 <= i < |entries| {
        IsMember(entries, i);
      }
      ok := MoveToEnd(i);
      if !ok {
        return;
      }
      EmptyHeap();
      if |entries| > 0 {
        ValuesPrefix(entries, |entries| - 1);
      }
      x := Pop();
    }

    /** Exchange entry i with the last one, unless it is that, and put the other where it belongs. */
    method MoveToEnd(i: int) returns (ok: bool)
      requires Indexed(entries) && (0 <= i < |entries| ==> HeapBut(Values(entries), i))
      modifies this, Members(entries)`index
      ensures ok <==> 0 <= i < |old(entries)| || (i == -1 && old(entries) == [])
      ensures Indexed(entries) && |entries| == old(|entries|)
      ensures ok && i >= 0 ==> entries[|entries| - 1] == old(entries)[i]
      ensures ok && i >= 0 ==> Heap(Values(entries)[..|entries| - 1]) && Members(entries) == old(Members(entries))
      ensures ok && i >= 0 ==> Members(entries[..|entries| - 1]) == old(Members(entries)) - {old(entries)[i]}
    {
      hide HeapBut, Heap, Values, Members;
      var n := |entries| - 1;
      if 0 <= i < |entries| {
        LastOut(entries, i);
        LastOutOrder(Values(entries), i);
      }
      ok := true;
      if n != i {
        ok := Swap(i, n);
        if !ok {
          return;
        }
        hide Indexed, Swapped;
        ghost var last := entries[n..];
        Reseat(i, n);
        assert entries[n] == last[0];
      }
    }

    /** Put the entry at i, the only one out of place among the first n, where it belongs. */
    method Reseat(i: nat, n: nat)
      requires i < n <= |entries| && Indexed(entries) && HeapBut(Values(entries)[..n], i)
      modifies this, Members(entries)`index
      ensures Indexed(entries) && |entries| == old(|entries|) && Heap(Values(entries)[..n])
      ensures Members(entries) == old(Members(entries)) && Members(entries[..n]) == old(Members(entries[..n]))
      ensures entries[n..] == old(entries)[n..]
    {
      hide *;
      var moved := Down(i, n);
      if !moved {
        Up(i, n);
      }
    }

    /** heap.Fix: entry i is the only one out of place. */
    method HeapFix(i: nat)
      requires i < |entries| && Indexed(entries) && HeapBut(Values(entries), i)
      modifies this, Members(entries)`index
      ensures Valid() && Members(entries) == old(Members(entries))
    {
      hide HeapBut, Heap, Members;
      ValuesWhole(entries);
      Reseat(i, |entries|);
      ValuesWhole(entries);
    }

    /** heap.Push */
    method HeapPush(x: Entry)
      requires Valid() && x !in entries
      modifies this, Members(entries)`index, x`index
      ensures Valid() && Members(entries) == old(Members(entries)) + {x}
    {
      ValuesAppend(entries, x);
      HeapAppend(Values(entries), x.nv);
      assert Members(entries + [x]) == Members(entries) + {x};
      Push(x);
      ValuesWhole(entries);
      Up(|entries| - 1, |entries|);
      ValuesWhole(entries);
    }
  }
}
