/** The probe: regular connectivity checks of the nodes of a routing table. */
module Probes {
  import opened Keys
  import opened Nearest
  import opened Options
  import opened Times
  import opened PendingHeaps

  /** Every tracked node is in exactly one of pending and ongoing. */
  ghost predicate Split(nodes: map<Key, Entry>, members: set<Entry>, ongoing: seq<Key>) {
    && (forall k :: k in nodes ==> (nodes[k] in members <==> k !in ongoing))
    && members <= nodes.Values && Distinct(ongoing) && (forall k :: k in ongoing ==> k in nodes)
  }

  /** Entries are kept under their own key, so each under one key; an ongoing one has position -1. */
  ghost predicate Labelled(nodes: map<Key, Entry>, ongoing: seq<Key>)
    reads nodes.Values
  {
    && (forall k :: k in nodes ==> nodes[k].nv.id == k)
    && (forall k :: k in ongoing && k in nodes ==> nodes[k].index == -1)
  }

  /** Labelled, but for the node id. */
  ghost predicate OthersLabelled(nodes: map<Key, Entry>, ongoing: seq<Key>, id: Key)
    reads nodes.Values
  {
    forall k :: k in nodes && k != id ==> nodes[k].nv.id == k && (k in ongoing ==> nodes[k].index == -1)
  }

  /** rest is s without id, whose place the last one has taken. */
  ghost predicate IsWithout(rest: seq<Key>, s: seq<Key>, id: Key) {
    && (if id in s then exists i :: 0 <= i < |s| && s[i] == id && rest == s[i := s[|s| - 1]][..|s| - 1] else rest == s)
    && Distinct(rest) && (forall k :: k in rest <==> k in s && k != id)
    && |rest| == |s| - (if id in s then 1 else 0)
  }

  lemma PutKeeps(nodes: map<Key, Entry>, members: set<Entry>, ongoing: seq<Key>, id: Key, nve: Entry, rest: seq<Key>)
    requires Split(nodes, members, ongoing) && OthersLabelled(nodes, ongoing, id) && IsWithout(rest, ongoing, id)
    requires nve.nv.id == id && if id in nodes then nve == nodes[id] else nve !in nodes.Values
    ensures Split(nodes[id := nve], members + {nve}, rest) && Labelled(nodes[id := nve], rest)
  {
    hide Distinct;
    var n := nodes[id := nve];
    assert n[id] == nve;
    forall e | e in members
      ensures e in n.Values
    {
      var k :| k in nodes && nodes[k] == e;
      assert n[k] == e;
    }
  }

  lemma RemoveKeeps(nodes: map<Key, Entry>, members: set<Entry>, ongoing: seq<Key>, id: Key, rest: seq<Key>)
    requires Split(nodes, members, ongoing) && OthersLabelled(nodes, ongoing, id) && IsWithout(rest, ongoing, id)
    requires id in nodes && nodes[id].nv.id == id
    ensures Split(nodes - {id}, members - {nodes[id]}, rest) && Labelled(nodes - {id}, rest)
  {
    hide Distinct;
    var n := nodes - {id};
    forall e | e in members - {nodes[id]}
      ensures e in n.Values
    {
      var k :| k in nodes && nodes[k] == e;
      assert n[k] == e;
    }
  }

  lemma MarkKeeps(nodes: map<Key, Entry>, members: set<Entry>, ongoing: seq<Key>, id: Key)
    requires Split(nodes, members, ongoing) && OthersLabelled(nodes, ongoing, id) && id in nodes && id !in ongoing
    requires nodes[id].nv.id == id && nodes[id].index == -1
    ensures Split(nodes, members - {nodes[id]}, ongoing + [id]) && Labelled(nodes, ongoing + [id])
  {}

  lemma Untracked(nodes: map<Key, Entry>, members: set<Entry>, ongoing: seq<Key>, id: Key)
    requires Split(nodes, members, ongoing) && id !in nodes
    ensures nodes - {id} == nodes && IsWithout(ongoing, ongoing, id)
  {
    hide Distinct;
  }

  /** a's check comes first: it is due sooner than b's, or at the same time and a shares at least as long a prefix
      with the table's key. */
  ghost predicate ComesFirst(a: NodeValue, b: NodeValue) {
    a.nextCheckDue < b.nextCheckDue || (a.nextCheckDue == b.nextCheckDue && a.cpl >= b.cpl)
  }

  /** The root of the heap is a pending node that comes first. */
  lemma FirstIsNext(l: NodeValueList)
    requires l.Valid() && l.pending.entries != []
    ensures var nv := l.pending.entries[0].nv; nv.id in l.nodes && nv.id !in l.ongoing && l.nodes[nv.id].nv == nv
    ensures var nv := l.pending.entries[0].nv;
      forall k :: k in l.nodes && k !in l.ongoing ==> ComesFirst(nv, l.nodes[k].nv)
  {
    hide Heap;
    var entries := l.pending.entries;
    IsMember(entries, 0);
    forall k | k in l.nodes && k !in l.ongoing
      ensures ComesFirst(entries[0].nv, l.nodes[k].nv)
    {
      MemberIndex(entries, l.nodes[k]);
      HeapMin(Values(entries), l.nodes[k].index);
    }
  }

  class NodeValueList {
    var nodes: map<Key, Entry>
    const pending: PendingList
    var ongoing: seq<Key>

    ghost predicate Valid()
      reads this, pending, pending.entries, nodes.Values
    {
      pending.Valid() && Split(nodes, Members(pending.entries), ongoing) && Labelled(nodes, ongoing)
    }

    constructor ()
      ensures Valid() && nodes == map[] && ongoing == [] && fresh(pending)
    {
      nodes, ongoing := map[], [];
      pending := new PendingList();
    }

    /** The invariant, the place of id's node in the heap aside. */
    ghost predicate ValidBut(id: Key)
      reads this, pending, pending.entries, nodes.Values
    {
      && Indexed(pending.entries) && Split(nodes, Members(pending.entries), ongoing) && Labelled(nodes, ongoing)
      && (if id in nodes && 0 <= nodes[id].index then HeapBut(Values(pending.entries), nodes[id].index)
          else Heap(Values(pending.entries)))
    }

    /** What Put comes down to: a tracked node is pending, or nothing is. Put shows that it goes through exactly
        then. */
    predicate Puttable(id: Key)
      reads this, pending, nodes.Values
    {
      id !in nodes || nodes[id].index >= 0 || pending.entries == []
    }

    /** Change a node's due time where it stands, which may put it out of place in the heap. */
    method SetDue(id: Key, due: Time)
      requires Valid() && id in nodes
      modifies {nodes[id]}`nv
      ensures ValidBut(id) && nodes[id].nv == old(nodes[id].nv).(nextCheckDue := due) && nodes[id].nv.id == id
      ensures forall k :: k in nodes && k != id ==> nodes[k].nv == old(nodes[k].nv)
    {
      hide Heap, HeapBut, Members, Indexed, Values;
      var nve := nodes[id];
      if id !in ongoing {
        MemberIndex(pending.entries, nve);
      }
      Overwrite(nve, nve.nv.(nextCheckDue := due));
    }

    /** Change an entry's value where it stands. */
    method Overwrite(nve: Entry, nv: NodeValue)
      requires pending.Valid()
      modifies nve`nv
      ensures nve.nv == nv && Indexed(pending.entries)
      ensures if nve in Members(pending.entries) then HeapBut(Values(pending.entries), nve.index)
        else Heap(Values(pending.entries))
    {
      hide Heap, HeapBut;
      ghost var v := Values(pending.entries);
      if nve in Members(pending.entries) {
        MemberIndex(pending.entries, nve);
        HeapButOne(v, nve.index, nv);
      }
      nve.nv := nv;
      assert Values(pending.entries) == if nve in Members(pending.entries) then v[nve.index := nv] else v;
    }

    /** Add or replace what is known about a node; it is pending from then on. This panics, in heap.Remove,
        exactly if the node is not puttable. */
    method Put(nv: NodeValue) returns (ok: bool)
      requires ValidBut(nv.id)
      modifies this, pending, nodes.Values
      ensures ok <==> old(Puttable(nv.id))
      ensures ok ==> Valid() && nodes.Keys == old(nodes.Keys) + {nv.id} && nodes[nv.id].nv == nv
      ensures ok ==> forall k :: k in old(nodes) && k != nv.id ==> nodes[k].nv == old(nodes[k].nv)
      ensures ok ==> forall e :: e in nodes.Values ==> e in old(nodes.Values) || fresh(e)
      ensures ok ==> IsWithout(ongoing, old(ongoing), nv.id)
    {
      hide Heap, HeapBut, Values, Members, PendingList.Valid, Indexed, OthersLabelled, IsWithout, Labelled;
      ghost var members := Members(pending.entries);
      var nve;
      ok, nve := Requeue(nv);
      if !ok {
        return;
      }
      RemoveFromOngoing(nv.id);
      PutKeeps(nodes, members, old(ongoing), nv.id, nve, ongoing);
      hide Split;
      nodes := nodes[nv.id := nve];
    }

    /** Put the entry for a node, new or not, into the heap with its new value. */
    method Requeue(nv: NodeValue) returns (ok: bool, nve: Entry)
      requires ValidBut(nv.id)
      modifies pending, nodes.Values
      ensures ok <==> old(Puttable(nv.id))
      ensures ok ==>
        nve.nv == nv && pending.Valid() && Members(pending.entries) == old(Members(pending.entries)) + {nve}
      ensures ok ==> if nv.id in nodes then nve == nodes[nv.id] else fresh(nve)
      ensures ok ==> forall k :: k in nodes && k != nv.id ==> nodes[k].nv == old(nodes[k].nv)
      ensures ok ==> OthersLabelled(nodes, ongoing, nv.id)
    {
      hide Heap, HeapBut, Values, Distinct, Members, PendingList.Valid, Indexed;
      ok, nve := Detach(nv);
      if ok {
        Append(nve);
      }
    }

    /** The entry for a node, new or taken out of the heap, with its new value. */
    method Detach(nv: NodeValue) returns (ok: bool, nve: Entry)
      requires ValidBut(nv.id)
      modifies pending, nodes.Values
      ensures ok <==> old(Puttable(nv.id))
      ensures ok ==>
        nve.nv == nv && pending.Valid() && Members(pending.entries) == old(Members(pending.entries)) - {nve}
      ensures ok ==> if nv.id in nodes then nve == nodes[nv.id] else fresh(nve)
      ensures ok ==> forall k :: k in nodes && k != nv.id ==> nodes[k] != nve && nodes[k].nv == old(nodes[k].nv)
      ensures ok ==> forall k :: k in nodes && k in ongoing && k != nv.id ==> nodes[k].index == -1
    {
      hide Heap, HeapBut, Values, Distinct, Members, Indexed;
      if nv.id !in nodes {
        nve := new Entry(nv);
        assert nve !in nodes.Values;
        ok := true;
      } else {
        nve := nodes[nv.id];
        if nv.id !in ongoing {
          MemberIndex(pending.entries, nve);
        }
        ok := Replace(nve, nv);
      }
    }

    /** Give an entry its new value and take it out of the heap. */
    method Replace(nve: Entry, nv: NodeValue) returns (ok: bool)
      requires Indexed(pending.entries) && nve.index >= -1
      requires if nve.index >= 0 then nve in Members(pending.entries) && HeapBut(Values(pending.entries), nve.index)
        else nve !in Members(pending.entries)
      modifies pending, Members(pending.entries)`index, nve`nv, nve`index
      ensures ok <==> old(nve.index) >= 0 || old(pending.entries) == []
      ensures ok ==>
        pending.Valid() && nve.nv == nv && Members(pending.entries) == old(Members(pending.entries)) - {nve}
      ensures ok && old(nve.index) >= 0 ==> nve.index == -1
    {
      hide Heap, HeapBut;
      ghost var v := Values(pending.entries);
      nve.nv := nv;
      if nve.index >= 0 {
        HeapButAny(v, nve.index, nv);
        assert Values(pending.entries) == v[nve.index := nv];
      }
      var x;
      ok, x := pending.HeapRemove(nve.index);
    }

    /** Push an entry and fix its place. */
    method Append(nve: Entry)
      requires pending.Valid() && nve !in Members(pending.entries)
      modifies pending, Members(pending.entries)`index, nve`index
      ensures pending.Valid() && Members(pending.entries) == old(Members(pending.entries)) + {nve}
    {
      hide Heap, HeapBut;
      pending.HeapPush(nve);
      assert nve in Members(pending.entries);
      ghost var v := Values(pending.entries);
      HeapButOne(v, nve.index, nve.nv);
      assert v[nve.index := nve.nv] == v;
      pending.HeapFix(nve.index);
    }

    /** Forget a node. */
    method Remove(n: Key)
      requires Valid()
      modifies this, pending, nodes.Values
      ensures Valid() && nodes == old(nodes) - {n} && IsWithout(ongoing, old(ongoing), n)
      ensures forall k :: k in nodes ==> nodes[k].nv == old(nodes[k].nv)
    {
      hide Heap, HeapBut, Values, Members, Indexed, Labelled, IsWithout;
      if n !in nodes {
        Untracked(nodes, Members(pending.entries), ongoing, n);
        return;
      }
      var nve := nodes[n];
      ghost var members := Members(pending.entries);
      TakeOut(n);
      nodes := nodes - {n};
      RemoveFromOngoing(n);
      RemoveKeeps(old(nodes), members, old(ongoing), n, ongoing);
    }

    /** Take a node's entry out of the heap, if it is there. */
    method TakeOut(n: Key)
      requires Valid() && n in nodes
      modifies pending, Members(pending.entries)`index
      ensures pending.Valid() && Members(pending.entries) == old(Members(pending.entries)) - {nodes[n]}
      ensures nodes[n].index == -1 && OthersLabelled(nodes, ongoing, n) && nodes[n].nv.id == n
    {
      hide Heap, HeapBut, Values, Members, Indexed;
      var nve := nodes[n];
      if n !in ongoing {
        MemberIndex(pending.entries, nve);
        ghost var v := Values(pending.entries);
        HeapButOne(v, nve.index, v[nve.index]);
        assert v[nve.index := v[nve.index]] == v;
      }
      if nve.index >= 0 {
        var _, _ := pending.HeapRemove(nve.index);
      }
    }

    /** The deadline of a tracked node's check has not passed. */
    ghost predicate InTime(k: Key, ts: Time)
      reads this, nodes.Values
    {
      k in nodes && nodes[k].nv.checkDeadline > ts
    }

    /** The first ongoing check whose deadline has passed. */
    method FindCheckPastDeadline(ts: Time) returns (n: Option<Key>)
      requires Valid()
      ensures n.Some? ==> n.value in ongoing && n.value in nodes && nodes[n.value].nv.checkDeadline <= ts
      ensures n.Some? ==>
        exists i :: 0 <= i < |ongoing| && ongoing[i] == n.value && forall j :: 0 <= j < i ==> InTime(ongoing[j], ts)
      ensures n.None? ==> forall k :: k in ongoing ==> InTime(k, ts)
    {
      hide PendingList.Valid;
      for i := 0 to |ongoing|
        invariant forall j :: 0 <= j < i ==> nodes[ongoing[j]].nv.checkDeadline > ts
      {
        assert ongoing[i] in ongoing;
        if ongoing[i] !in nodes || nodes[ongoing[i]].nv.checkDeadline <= ts {
          return Some(ongoing[i]);
        }
      }
      n := None;
    }

    /** The node to check next, if its check is due: no pending node comes before it. */
    method PeekNext(ts: Time) returns (next: Option<NodeValue>)
      requires Valid()
      ensures next.Some? ==>
        && next.value.id in nodes && next.value.id !in ongoing
        && nodes[next.value.id].nv == next.value && next.value.nextCheckDue <= ts
      ensures next.Some? ==> forall k :: k in nodes && k !in ongoing ==> ComesFirst(next.value, nodes[k].nv)
      ensures next.None? ==> forall k :: k in nodes && k !in ongoing ==> nodes[k].nv.nextCheckDue > ts
    {
      hide Heap;
      if pending.entries == [] {
        return None;
      }
      var nve := pending.entries[0];
      FirstIsNext(this);
      if nve.nv.nextCheckDue > ts {
        return None;
      }
      next := Some(nve.nv);
    }

    /** A check of a pending node begins. */
    method MarkOngoing(n: Key, deadline: Time)
      requires Valid() && (n in nodes ==> n !in ongoing)
      modifies this, pending, nodes.Values
      ensures Valid() && nodes == old(nodes)
      ensures ongoing == if n in nodes then old(ongoing) + [n] else old(ongoing)
      ensures forall k :: k in nodes ==> nodes[k].nv == if k == n then old(nodes[k].nv).(checkDeadline := deadline)
        else old(nodes[k].nv)
    {
      hide Heap, HeapBut, Values, Members, Indexed, Labelled;
      if n !in nodes {
        return;
      }
      ghost var members := Members(pending.entries);
      Untie(n, deadline);
      MarkKeeps(nodes, members, ongoing, n);
      ongoing := ongoing + [n];
    }

    /** Set the deadline of a pending node and take it out of the heap. */
    method Untie(n: Key, deadline: Time)
      requires Valid() && n in nodes && n !in ongoing
      modifies pending, Members(pending.entries)
      ensures pending.Valid() && Members(pending.entries) == old(Members(pending.entries)) - {nodes[n]}
      ensures nodes[n].index == -1 && OthersLabelled(nodes, ongoing, n) && nodes[n].nv.id == n
      ensures nodes[n].nv == old(nodes[n].nv).(checkDeadline := deadline)
      ensures forall k :: k in nodes && k != n ==> nodes[k].nv == old(nodes[k].nv)
    {
      hide Heap, HeapBut, Values, Members, Indexed;
      var nve := nodes[n];
      MemberIndex(pending.entries, nve);
      ghost var v := Values(pending.entries);
      HeapButOne(v, nve.index, v[nve.index]);
      assert v[nve.index := v[nve.index]] == v;
      var _ := Replace(nve, nve.nv.(checkDeadline := deadline));
    }

    /** Swap the entry for n with the last one and cut that off. */
    method RemoveFromOngoing(n: Key)
      requires Distinct(ongoing)
      modifies this`ongoing
      ensures IsWithout(ongoing, old(ongoing), n)
    {
      for i := 0 to |ongoing|
        invariant ongoing == old(ongoing) && n !in ongoing[..i]
      {
        if ongoing[i] == n {
          ghost var was := ongoing;
          if |ongoing| > 1 {
            ongoing := ongoing[i := ongoing[|ongoing| - 1]][|ongoing| - 1 := ongoing[i]];
          }
          ongoing := ongoing[..|ongoing| - 1];
          SwapRemoved(was, i);
          assert ongoing == was[i := was[|was| - 1]][..|was| - 1];
          return;
        }
      }
    }
  }

  datatype Event =
    | Poll
    | Add(id: Key)
    | Remove(id: Key)
    | MessageResponse(id: Key)
    | MessageFailure(id: Key)
    | NotifyConnectivity(id: Key)

  datatype State =
    | Idle
    | WaitingAtCapacity
    | WaitingWithCapacity
    | ConnectivityCheck(id: Key)
    | NodeFailure(id: Key)

  class Probe {
    const self: Key
    const checkInterval: int
    const concurrency: nat
    const timeout: int
    /** The keys of the routing table. */
    var table: set<Key>
    const nvl: NodeValueList

    ghost predicate Valid()
      reads this, nvl, nvl.pending, nvl.pending.entries, nvl.nodes.Values
    {
      && nvl.Valid() && |nvl.ongoing| <= concurrency && concurrency > 0
      && (forall k :: k in table ==> |k| == |self|)
      && Ranked()
    }

    /** Every node carries its common prefix length with the table's key. */
    ghost predicate Ranked()
      reads this, nvl, nvl.nodes.Values
    {
      forall k :: k in nvl.nodes ==> |k| == |self| && nvl.nodes[k].nv.cpl == Cpl(self, k)
    }

    constructor (self: Key, checkInterval: int, concurrency: nat, timeout: int, table: set<Key>)
      requires concurrency > 0 && timeout > 0 && checkInterval > 0 && forall k :: k in table ==> |k| == |self|
      ensures Valid() && nvl.nodes == map[] && nvl.ongoing == [] && fresh(nvl) && fresh(nvl.pending)
      ensures this.self == self && this.concurrency == concurrency && this.table == table
      ensures this.checkInterval == checkInterval && this.timeout == timeout
    {
      this.self, this.table := self, table;
      this.checkInterval, this.concurrency, this.timeout := checkInterval, concurrency, timeout;
      nvl := new NodeValueList();
    }

    /** The events that put back a node only if it is pending or nothing is. Advance shows that they are exactly
        those that do not panic. */
    predicate PanicFree(ev: Event)
      reads this, nvl, nvl.pending, nvl.nodes.Values
    {
      match ev
      case Add(id) => id in table ==> nvl.Puttable(id)
      case MessageResponse(id) => nvl.Puttable(id)
      case NotifyConnectivity(id) => nvl.Puttable(id)
      case _ => true
    }

    /** The routing table changes from outside: the probe's other users add and remove nodes. */
    method TableChanges(keys: set<Key>)
      requires Valid() && forall k :: k in keys ==> |k| == |self|
      modifies this`table
      ensures Valid() && table == keys
    {
      hide NodeValueList.Valid;
      table := keys;
    }

    /** The nodes tracked once an event has been taken in, removals aside. */
    ghost function Tracked(ev: Event): set<Key>
      reads this, nvl
    {
      if ev.Add? && ev.id in table then nvl.nodes.Keys + {ev.id} else nvl.nodes.Keys
    }

    /** The checks an event leaves ongoing: putting a node back ends its check. */
    ghost function StillOngoing(ev: Event): set<Key>
      reads this, nvl
    {
      set k | k in nvl.ongoing && !(PutsBack(ev) && k == ev.id)
    }

    /** The events after which a node's next check is a full interval away. */
    ghost predicate PutsBack(ev: Event)
      reads this, nvl
    {
      (ev.Add? && ev.id in table) || ((ev.MessageResponse? || ev.NotifyConnectivity?) && ev.id in nvl.nodes)
    }

    /** What each state says about the list at the end of a step. */
    ghost predicate Explained(state: State, now: Time)
      requires nvl.Valid()
      reads this, nvl, nvl.pending, nvl.pending.entries, nvl.nodes.Values
    {
      match state
      case ConnectivityCheck(id) =>
        && id in nvl.ongoing && id in nvl.nodes && nvl.nodes[id].nv.nextCheckDue <= now
        && nvl.nodes[id].nv.checkDeadline == now + timeout
        && (forall k :: k in nvl.nodes && k !in nvl.ongoing ==> ComesFirst(nvl.nodes[id].nv, nvl.nodes[k].nv))
      case WaitingAtCapacity =>
        && |nvl.ongoing| == concurrency
        && forall k :: k in nvl.ongoing && k in nvl.nodes ==> nvl.nodes[k].nv.checkDeadline > now
      case WaitingWithCapacity => 0 < |nvl.ongoing| < concurrency && NoneDue(now)
      case Idle => nvl.ongoing == [] && NoneDue(now)
      case NodeFailure(id) => id !in nvl.nodes && id !in nvl.ongoing && id !in table
    }

    /** What is known of a node after the check that a state asks for has begun: its deadline is set. */
    ghost function Checked(state: State, now: Time, k: Key, nv: NodeValue): (r: NodeValue)
      ensures r.id == nv.id && r.nextCheckDue == nv.nextCheckDue
    {
      if state == ConnectivityCheck(k) then nv.(checkDeadline := now + timeout) else nv
    }

    /** How the ongoing checks change in a step: one begins, one has timed out, or none. */
    ghost predicate Steps(before: set<Key>, state: State)
      reads this, nvl
    {
      match state
      case ConnectivityCheck(id) => id !in before && forall k :: k in nvl.ongoing <==> k in before || k == id
      case NodeFailure(id) =>
        id in before && |before| >= concurrency && forall k :: k in nvl.ongoing <==> k in before && k != id
      case _ => forall k :: k in nvl.ongoing <==> k in before
    }

    ghost predicate NoneDue(now: Time)
      reads this, nvl, nvl.nodes.Values
    {
      forall k :: k in nvl.nodes && k !in nvl.ongoing ==> nvl.nodes[k].nv.nextCheckDue > now
    }

    /** One event, at one reading of the clock. There is no state if the event makes heap.Remove panic. */
    method Advance(ev: Event, now: Time) returns (state: Option<State>)
      requires Valid()
      modifies this, nvl, nvl.pending, nvl.nodes.Values
      ensures state.Some? <==> old(PanicFree(ev))
      ensures state.Some? ==> Valid() && Explained(state.value, now)
      ensures ev.Remove? || ev.MessageFailure? ==> state == Some(NodeFailure(ev.id))
      ensures state.Some? ==>
        nvl.nodes.Keys == (if state.value.NodeFailure? then old(Tracked(ev)) - {state.value.id} else old(Tracked(ev)))
      ensures state.Some? ==>
        table == (if state.value.NodeFailure? then old(table) - {state.value.id} else old(table))
      ensures state.Some? ==> forall k :: k in nvl.nodes && !(old(PutsBack(ev)) && k == ev.id) ==>
        nvl.nodes[k].nv == Checked(state.value, now, k, old(nvl.nodes[k].nv))
      ensures state.Some? && ev.Add? && ev.id in old(table) && ev.id in nvl.nodes ==>
        nvl.nodes[ev.id].nv.nextCheckDue == now + checkInterval
      ensures state.Some? && (ev.MessageResponse? || ev.NotifyConnectivity?) && ev.id in old(nvl.nodes) ==>
        ev.id in nvl.nodes ==> nvl.nodes[ev.id].nv.nextCheckDue == now + checkInterval
      ensures state.Some? ==> forall e :: e in nvl.nodes.Values ==> e in old(nvl.nodes.Values) || fresh(e)
      ensures state.Some? && !ev.Remove? && !ev.MessageFailure? ==> Steps(old(StillOngoing(ev)), state.value)
      ensures ev.Remove? || ev.MessageFailure? ==> forall k :: k in nvl.ongoing <==> k in old(nvl.ongoing) && k != ev.id
      ensures state.Some? && state.value.NodeFailure? && !ev.Remove? && !ev.MessageFailure? ==>
        state.value.id in old(nvl.nodes) && old(nvl.nodes[state.value.id].nv.checkDeadline) <= now
    {
      hide NodeValueList.Valid, Explained, NoneDue, Steps, Distinct;
      if ev.Remove? || ev.MessageFailure? {
        var failed := Fail(ev.id, now);
        return Some(failed);
      }
      OngoingTracked(nvl);
      var ok := TakeIn(ev, now);
      if !ok {
        return None;
      }
      var next := NextCheck(now);
      state := Some(next);
    }

    /** The part of an event that does not end the step. */
    method TakeIn(ev: Event, now: Time) returns (ok: bool)
      requires Valid() && !ev.Remove? && !ev.MessageFailure?
      modifies nvl, nvl.pending, nvl.nodes.Values
      ensures ok <==> old(PanicFree(ev))
      ensures ok ==> Valid() && nvl.nodes.Keys == old(Tracked(ev))
      ensures ok ==> (set k | k in nvl.ongoing) == old(StillOngoing(ev))
      ensures ok ==> forall k :: k in nvl.ongoing ==> k in old(nvl.ongoing) && !(old(PutsBack(ev)) && k == ev.id)
      ensures ok ==> forall k :: k in nvl.nodes && !(old(PutsBack(ev)) && k == ev.id) ==>
        nvl.nodes[k].nv == old(nvl.nodes[k].nv)
      ensures ok && old(PutsBack(ev)) && ev.id in nvl.nodes ==> nvl.nodes[ev.id].nv.nextCheckDue == now + checkInterval
      ensures ok ==> forall e :: e in nvl.nodes.Values ==> e in old(nvl.nodes.Values) || fresh(e)
    {
      hide NodeValueList.Valid, Explained, NoneDue, Steps, Distinct;
      ok := true;
      match ev {
        case Add(id) =>
          if id in table {
            ok := Place(NodeValue(id, Cpl(self, id), now + checkInterval, 0));
          }
        case MessageResponse(id) =>
          ok := Postpone(id, now);
        case NotifyConnectivity(id) =>
          ok := Postpone(id, now);
        case _ =>
      }
    }

    /** Put a node that is in the table into the list. */
    method Place(nv: NodeValue) returns (ok: bool)
      requires Valid() && |nv.id| == |self| && nv.cpl == Cpl(self, nv.id)
      modifies nvl, nvl.pending, nvl.nodes.Values
      ensures ok <==> old(nvl.Puttable(nv.id))
      ensures ok ==> Valid() && nvl.nodes.Keys == old(nvl.nodes.Keys) + {nv.id} && nvl.nodes[nv.id].nv == nv
      ensures ok ==> forall k :: k in old(nvl.nodes) && k != nv.id ==> nvl.nodes[k].nv == old(nvl.nodes[k].nv)
      ensures ok ==> IsWithout(nvl.ongoing, old(nvl.ongoing), nv.id)
      ensures ok ==> forall e :: e in nvl.nodes.Values ==> e in old(nvl.nodes.Values) || fresh(e)
    {
      hide NodeValueList.Valid, NodeValueList.ValidBut;
      ValidIsValidBut(nvl, nv.id);
      ok := nvl.Put(nv);
    }

    /** A node turned out to be alive: its next check moves to a full interval from now. */
    method Postpone(id: Key, now: Time) returns (ok: bool)
      requires Valid()
      modifies nvl, nvl.pending, nvl.nodes.Values
      ensures ok <==> old(nvl.Puttable(id))
      ensures ok ==> Valid() && nvl.nodes.Keys == old(nvl.nodes.Keys)
      ensures ok ==> forall k :: k in nvl.nodes && k != id ==> nvl.nodes[k].nv == old(nvl.nodes[k].nv)
      ensures ok ==>
        if id in nvl.nodes then IsWithout(nvl.ongoing, old(nvl.ongoing), id) else nvl.ongoing == old(nvl.ongoing)
      ensures ok ==> forall e :: e in nvl.nodes.Values ==> e in old(nvl.nodes.Values) || fresh(e)
      ensures ok && id in nvl.nodes ==>
        id !in nvl.ongoing && nvl.nodes[id].nv == old(nvl.nodes[id].nv).(nextCheckDue := now + checkInterval)
    {
      hide NodeValueList.Valid, NodeValueList.ValidBut;
      if id !in nvl.nodes {
        return true;
      }
      nvl.SetDue(id, now + checkInterval);
      ok := nvl.Put(nvl.nodes[id].nv);
    }

    /** Time out a check to make room, or begin the next one if there is room and one is due. */
    method NextCheck(now: Time) returns (state: State)
      requires Valid()
      modifies this, nvl, nvl.pending, nvl.nodes.Values
      ensures Valid() && Explained(state, now)
      ensures nvl.nodes.Keys == if state.NodeFailure? then old(nvl.nodes.Keys) - {state.id} else old(nvl.nodes.Keys)
      ensures table == if state.NodeFailure? then old(table) - {state.id} else old(table)
      ensures Steps(old(set k | k in nvl.ongoing), state)
      ensures forall e :: e in nvl.nodes.Values ==> e in old(nvl.nodes.Values)
      ensures state.NodeFailure? ==>
        state.id in old(nvl.ongoing) && state.id in old(nvl.nodes) && old(nvl.nodes[state.id].nv).checkDeadline <= now
      ensures forall k :: k in nvl.nodes ==> nvl.nodes[k].nv == Checked(state, now, k, old(nvl.nodes[k].nv))
    {
      hide NodeValueList.Valid, Distinct, Explained, Steps;
      if concurrency <= |nvl.ongoing| {
        state := TimeOutCheck(now);
      } else {
        state := BeginCheck(now);
      }
    }

    /** At capacity: a check past its deadline has failed, if there is one. */
    method TimeOutCheck(now: Time) returns (state: State)
      requires Valid() && concurrency <= |nvl.ongoing|
      modifies this, nvl, nvl.pending, nvl.nodes.Values
      ensures Valid() && Explained(state, now) && Steps(old(set k | k in nvl.ongoing), state)
      ensures state == WaitingAtCapacity || state.NodeFailure?
      ensures nvl.nodes == if state.NodeFailure? then old(nvl.nodes) - {state.id} else old(nvl.nodes)
      ensures table == if state.NodeFailure? then old(table) - {state.id} else old(table)
      ensures state.NodeFailure? ==>
        state.id in old(nvl.ongoing) && state.id in old(nvl.nodes) && old(nvl.nodes[state.id].nv).checkDeadline <= now
      ensures forall k :: k in nvl.nodes ==> nvl.nodes[k].nv == old(nvl.nodes[k].nv)
    {
      hide NodeValueList.Valid, Distinct;
      AllDistinct(nvl);
      var candidate := nvl.FindCheckPastDeadline(now);
      if candidate.None? {
        return WaitingAtCapacity;
      }
      state := Fail(candidate.value, now);
    }

    /** Below capacity: the next due check begins, if there is one. */
    method BeginCheck(now: Time) returns (state: State)
      requires Valid() && |nvl.ongoing| < concurrency
      modifies nvl, nvl.pending, nvl.nodes.Values
      ensures Valid() && Explained(state, now) && Steps(old(set k | k in nvl.ongoing), state)
      ensures state != WaitingAtCapacity && !state.NodeFailure? && nvl.nodes == old(nvl.nodes)
      ensures forall k :: k in nvl.nodes ==> nvl.nodes[k].nv == Checked(state, now, k, old(nvl.nodes[k].nv))
    {
      hide NodeValueList.Valid, Distinct;
      var next := nvl.PeekNext(now);
      if next.None? {
        return if |nvl.ongoing| > 0 then WaitingWithCapacity else Idle;
      }
      nvl.MarkOngoing(next.value.id, now + timeout);
      state := ConnectivityCheck(next.value.id);
    }

    /** Drop a node from the table and from the list. */
    method Fail(id: Key, ghost now: Time) returns (state: State)
      requires Valid()
      modifies this, nvl, nvl.pending, nvl.nodes.Values
      ensures Valid() && state == NodeFailure(id) && Explained(state, now)
      ensures forall e :: e in nvl.nodes.Values ==> e in old(nvl.nodes.Values)
      ensures table == old(table) - {id} && nvl.nodes == old(nvl.nodes) - {id}
      ensures IsWithout(nvl.ongoing, old(nvl.ongoing), id)
      ensures forall k :: k in nvl.nodes ==> nvl.nodes[k].nv == old(nvl.nodes[k].nv)
    {
      hide NodeValueList.Valid;
      table := table - {id};
      nvl.Remove(id);
      state := NodeFailure(id);
    }
  }

  /** Exactly when an event that puts back a tracked node goes through: its check is not ongoing, or every
      tracked node is being checked. */
  lemma PanicFreeIff(p: Probe, ev: Event)
    requires p.Valid() && p.PutsBack(ev) && ev.id in p.nvl.nodes
    ensures p.PanicFree(ev) <==> ev.id !in p.nvl.ongoing || forall k :: k in p.nvl.nodes ==> k in p.nvl.ongoing
  {
    hide Heap, Indexed;
    var entries := p.nvl.pending.entries;
    if ev.id !in p.nvl.ongoing {
      MemberIndex(entries, p.nvl.nodes[ev.id]);
    }
    if entries != [] {
      IsMember(entries, 0);
    }
  }

  /** Nothing is being checked, and every check is due at time due. */
  ghost predicate Quiet(p: Probe, tracked: set<Key>, due: Time)
    reads p, p.nvl, p.nvl.nodes.Values
  {
    && p.nvl.nodes.Keys == tracked && (forall k :: k !in p.nvl.ongoing)
    && (forall k :: k in p.nvl.nodes ==> p.nvl.nodes[k].nv.nextCheckDue == due)
  }

  method AddQuietly(p: Probe, id: Key, ghost tracked: set<Key>)
    requires p.Valid() && Quiet(p, tracked, p.checkInterval) && id in p.table && p.checkInterval > 0
    modifies p, p.nvl, p.nvl.pending, p.nvl.nodes.Values
    ensures p.Valid() && Quiet(p, tracked + {id}, p.checkInterval) && p.table == old(p.table)
    ensures forall e :: e in p.nvl.nodes.Values ==> e in old(p.nvl.nodes.Values) || fresh(e)
  {
    hide Heap, Indexed, Split;
    AllPuttable(p, id);
    hide NodeValueList.Valid;
    var state := p.Advance(Add(id), 0);
    assert state.Some? && !state.value.NodeFailure?;
    assert !state.value.ConnectivityCheck?;
    assert forall k :: k !in p.nvl.ongoing;
    hide Probe.Explained, Probe.Steps, Probe.Valid;
    forall k | k in p.nvl.nodes
      ensures p.nvl.nodes[k].nv.nextCheckDue == p.checkInterval
    {}
  }

  lemma AllPuttable(p: Probe, id: Key)
    requires p.Valid() && forall k :: k !in p.nvl.ongoing
    ensures p.nvl.Puttable(id)
  {
    hide Heap, Indexed;
    if id in p.nvl.nodes {
      MemberIndex(p.nvl.pending.entries, p.nvl.nodes[id]);
    }
  }

  /** A run in which an ordinary response panics: two nodes are tracked, the check of one begins, and it is
      answered while the other is pending. */
  method ResponsePanics() returns (state: Option<State>)
    ensures state == None
  {
    hide NodeValueList.Valid;
    var a, b := [true, false], [true, true];
    var p := new Probe([false, false], 10, 1, 5, {a, b});
    AddQuietly(p, a, {});
    AddQuietly(p, b, {a});
    hide Quiet;
    var id := CheckOne(p, a, b);
    state := p.Advance(MessageResponse(id), p.checkInterval);
  }

  method CheckOne(p: Probe, ghost a: Key, ghost b: Key) returns (id: Key)
    requires p.Valid() && a != b && Quiet(p, {a, b}, p.checkInterval)
    modifies p, p.nvl, p.nvl.pending, p.nvl.nodes.Values
    ensures p.Valid() && id in p.nvl.ongoing && !p.PanicFree(MessageResponse(id))
    ensures forall e :: e in p.nvl.nodes.Values ==> e in old(p.nvl.nodes.Values) || fresh(e)
  {
    hide NodeValueList.Valid;
    var state := p.Advance(Poll, p.checkInterval);
    assert a in p.nvl.nodes.Keys && b in p.nvl.nodes.Keys;
    assert !state.value.NodeFailure?;
    assert p.nvl.ongoing != [] ==> p.nvl.ongoing[0] in p.nvl.ongoing;
    assert state.value.ConnectivityCheck?;
    id := state.value.id;
    PanicFreeIff(p, MessageResponse(id));
  }

  lemma OngoingTracked(l: NodeValueList)
    requires l.Valid()
    ensures forall k :: k in l.ongoing ==> k in l.nodes
  {}

  lemma AllDistinct(l: NodeValueList)
    requires l.Valid()
    ensures |set k | k in l.ongoing| == |l.ongoing|
  {
    DistinctCount(l.ongoing);
  }

  lemma ValidIsValidBut(l: NodeValueList, id: Key)
    requires l.Valid()
    ensures l.ValidBut(id)
  {
    hide Heap, HeapBut;
    if id in l.nodes && 0 <= l.nodes[id].index {
      var v, i := Values(l.pending.entries), l.nodes[id].index;
      MemberIndex(l.pending.entries, l.nodes[id]);
      HeapButOne(v, i, v[i]);
      assert v[i := v[i]] == v;
    }
  }

  lemma SwapRemoved(s: seq<Key>, i: nat)
    requires i < |s| && Distinct(s)
    ensures var r := s[i := s[|s| - 1]][..|s| - 1]; Distinct(r) && forall k :: k in r <==> k in s && k != s[i]
  {
    var r := s[i := s[|s| - 1]][..|s| - 1];
    forall k | k in s && k != s[i]
      ensures k in r
    {
      var j :| 0 <= j < |s| && s[j] == k;
      assert r[if j == |s| - 1 then i else j] == k;
    }
  }
}
