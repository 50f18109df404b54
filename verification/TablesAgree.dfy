/** The two routing tables answer nearest-node queries alike. */
module TablesAgree {
  import opened Keys
  import opened Nearest
  import opened Tables
  import opened TrieTable
  import opened SimpleTable
  import TrieSearch

  /** Leaving self out changes the n nearest keys exactly if self is one of them. */
  lemma WithoutSelfAgreesIff(keys: set<Key>, self: Key, t: Key, n: nat)
    requires SameLength(keys, t)
    ensures SameLength(keys - {self}, t)
    ensures Take(Ranked(keys - {self}, t), n) == Take(Ranked(keys, t), n) <==> self !in Take(Ranked(keys, t), n)
  {
    var all, some := Take(Ranked(keys, t), n), Take(Ranked(keys - {self}, t), n);
    RankingPrefix(Ranked(keys, t), keys, t, n);
    RankingPrefix(Ranked(keys - {self}, t), keys - {self}, t, n);
    if self !in all {
      assert self in keys ==> n < |keys| && |keys - {self}| == |keys| - 1;
      assert self !in keys ==> keys - {self} == keys;
      assert IsNearest(all, keys - {self}, t, n);
      NearestUnique(all, some, keys - {self}, t, n);
    }
  }

  /** Tables over the same nodes give the same nearest nodes, in the same order, for every target and
      every n >= 1, as long as they do not store their own key. */
  method NearestNodesAgree<N(0, !new)>(a: SimpleRT<N>, b: TrieRT<N>, target: Key, n: nat) returns (x: seq<N>, y: seq<N>)
    requires a.Valid() && b.Valid() && a.self == b.self && |target| == |a.self|
    requires a.table == b.Table() && a.self !in a.table && n >= 1
    ensures x == y
  {
    hide *;
    ghost var m := a.table;
    assert m - {a.self} == m;
    y := b.NearestNodes(target, n);
    x := a.NearestNodes(target, n);
  }

  /** Different keys have different nodes. */
  ghost predicate KeyedNodes<N(!new)>(m: map<Key, N>) {
    forall j, k :: j in m && k in m && m[j] == m[k] ==> j == k
  }

  /** The table's answer when all but self is searched is made of the same nodes under the same keys. */
  lemma AtWithout<N(!new)>(m: map<Key, N>, self: Key, t: Key, n: nat)
    requires KeysFit(m, t)
    ensures KeysFit(m - {self}, t) && (m - {self}).Keys == m.Keys - {self}
    ensures forall i :: 0 <= i < |Take(Ranked(m.Keys - {self}, t), n)| ==> Take(Ranked(m.Keys - {self}, t), n)[i] in m
    ensures NearestNodesOf(m - {self}, t, n) == At(m, Take(Ranked(m.Keys - {self}, t), n))
  {
    assert (m - {self}).Keys == m.Keys - {self};
    var ks := Take(Ranked(m.Keys - {self}, t), n);
    assert forall i :: 0 <= i < |ks| ==> ks[i] in m.Keys - {self};
  }

  lemma AtInjective<N(!new)>(m: map<Key, N>, ks: seq<Key>, ls: seq<Key>)
    requires KeyedNodes(m)
    requires (forall i :: 0 <= i < |ks| ==> ks[i] in m) && forall i :: 0 <= i < |ls| ==> ls[i] in m
    ensures At(m, ks) == At(m, ls) <==> ks == ls
  {
    if At(m, ks) == At(m, ls) {
      forall i | 0 <= i < |ks|
        ensures ks[i] == ls[i]
      {
        assert At(m, ks)[i] == At(m, ls)[i];
      }
    }
  }

  /** Tables over the same nodes, their own among them or not, give the same answer exactly if the bucket
      shortcut is taken or the own key is not among the n nearest. */
  method NearestNodesAgreeIff<N(0, !new)>(a: SimpleRT<N>, b: TrieRT<N>, target: Key, n: nat)
    returns (x: seq<N>, y: seq<N>)
    requires a.Valid() && b.Valid() && a.self == b.self && |target| == |a.self|
    requires a.table == b.Table() && KeyedNodes(a.table) && n >= 1
    ensures SameLength(a.table.Keys, target)
    ensures x == y <==>
      || |a.buckets[BucketOf(a.self, |a.buckets|, target)]| == n
      || a.self !in Take(Ranked(a.table.Keys, target), n)
  {
    hide *;
    ghost var m := a.table;
    y := b.NearestNodes(target, n);
    x := a.NearestNodes(target, n);
    if |a.buckets[BucketOf(a.self, |a.buckets|, target)]| != n {
      AgreeIff(m, a.self, target, n);
    }
  }

  lemma AgreeIff<N(!new)>(m: map<Key, N>, self: Key, t: Key, n: nat)
    requires KeysFit(m, t) && KeyedNodes(m)
    ensures KeysFit(m - {self}, t) && SameLength(m.Keys, t)
    ensures NearestNodesOf(m - {self}, t, n) == NearestNodesOf(m, t, n) <==> self !in Take(Ranked(m.Keys, t), n)
  {
    AtWithout(m, self, t, n);
    WithoutSelfAgreesIff(m.Keys, self, t, n);
    hide At, KeyedNodes, Take;
    AtInjective(m, Take(Ranked(m.Keys - {self}, t), n), Take(Ranked(m.Keys, t), n));
  }

  lemma OneKey(self: Key)
    ensures SameLength({self}, self) && Ranked({self}, self) == [self]
    ensures SameLength({}, self) && Ranked({}, self) == []
    ensures |TrieSearch.CplClass({}, self, Cpl(self, self))| == 0
  {
    RankingUnique([self], Ranked({self}, self), {self}, self);
    assert TrieSearch.CplClass({}, self, Cpl(self, self)) == {};
  }

  /** With the own key stored they differ: tables holding only self, asked for two nodes near self. */
  method SelfStoredDisagree<N(0, !new)>(self: Key, node: N) returns (x: seq<N>, y: seq<N>)
    ensures x == [] && y == [node]
  {
    OneKey(self);
    ghost var m, empty: map<Key, N> := map[self := node], map[];
    assert m.Keys == {self} && empty.Keys == {} && m - {self} == empty;
    x := SelfInSimple(self, node);
    y := SelfInTrie(self, node);
  }

  method SelfInSimple<N(!new)>(self: Key, node: N) returns (x: seq<N>)
    ensures x == []
  {
    OneKey(self);
    var a := new SimpleRT<N>(self, 1);
    ghost var empty: map<Key, N> := map[];
    assert empty.Keys == {};
    var added := a.AddNode(self, node);
    assert a.table - {self} == empty;
    BucketBounds(a.buckets, self, 1, a.table);
    x := a.NearestNodes(self, 2);
  }

  method SelfInTrie<N(0, !new)>(self: Key, node: N) returns (y: seq<N>)
    ensures y == [node]
  {
    OneKey(self);
    var b := new TrieRT<N>(self, NoFilter);
    var changed := b.AddNode(self, node);
    ghost var m := map[self := node];
    assert m.Keys == {self};
    assert b.Table() == m;
    y := b.NearestNodes(self, 2);
  }
}
