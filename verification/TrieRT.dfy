/** The routing table over a persistent trie. */
module TrieTable {
  import opened Keys
  import opened Options
  import opened Tries
  import opened TrieShape
  import opened TrieSearch
  import opened HeapTries
  import opened Tables

  /** The key filter of the source is a function the table is built with; BucketLimit(20) is the one it
      provides. */
  datatype KeyFilter = NoFilter | BucketLimit(max: nat)

  class TrieRT<N(0)> {
    const self: Key
    const keyFilter: KeyFilter
    var root: TrieNode<N>
    ghost var shape: Shape<N>

    ghost predicate Valid()
      reads this, Nodes(shape)
    {
      shape.n == root && Linked(shape) && Rooted(Abs(shape), |self|)
    }

    /** The table's contents. */
    ghost function Table(): map<Key, N>
      reads this, Nodes(shape)
    {
      Contents(Abs(shape))
    }

    constructor (self: Key, keyFilter: KeyFilter)
      ensures Valid() && Table() == map[] && this.self == self && this.keyFilter == keyFilter
    {
      this.self, this.keyFilter := self, keyFilter;
      var r := new TrieNode<N>.EmptyNode();
      root, shape := r, Tip(r);
    }

    /** The number of stored keys whose common prefix with self is exactly cpl bits long. */
    function CplSize(cpl: nat): (size: nat)
      requires Valid()
      reads this, Nodes(shape)
      ensures size == |CplClass(Table().Keys, self, cpl)|
    {
      assert self[..0] == [];
      CountCplCounts(Abs(shape), self, cpl, 0);
      CountCplFrom(root, self, cpl, 0, shape)
    }

    predicate Admits(kk: Key)
      requires Valid() && |kk| == |self|
      reads this, Nodes(shape)
      ensures Admits(kk) <==>
        keyFilter == NoFilter || |CplClass(Table().Keys, self, Cpl(self, kk))| < keyFilter.max
    {
      keyFilter == NoFilter || CplSize(Cpl(self, kk)) < keyFilter.max
    }

    method Store(next: TrieNode<N>, ghost s: Shape<N>)
      requires s.n == next && Linked(s) && Rooted(Abs(s), |self|)
      modifies this
      ensures Valid() && root == next && shape == s && Abs(shape) == old(Abs(s))
    {
      ghost var t := Abs(s);
      root, shape := next, s;
      assert Linked(shape) && Abs(shape) == t;
    }

    /** Insert if absent. The result is false exactly if the filter refuses the key or the table holds
        that key and nothing else. So it says whether the table changed, unless the key is admitted,
        present, and not alone. */
    method AddNode(kk: Key, node: N) returns (changed: bool)
      requires Valid() && |kk| == |self|
      modifies this
      ensures Valid()
      ensures Table() == if old(Admits(kk)) then Insert(old(Table()), kk, node) else old(Table())
      ensures changed <==> old(Admits(kk)) && old(Table()).Keys != {kk}
      ensures (changed <==> Table() != old(Table())) <==>
        !(old(Admits(kk)) && kk in old(Table()) && old(Table()).Keys != {kk})
      ensures keyFilter.BucketLimit? && old(Capped(Table().Keys, self, keyFilter.max))
        ==> Capped(Table().Keys, self, keyFilter.max)
    {
      if !Admits(kk) {
        return false;
      }
      ghost var t := Abs(shape);
      AddFromRoot(t, kk, node);
      if keyFilter.BucketLimit? && Capped(Contents(t).Keys, self, keyFilter.max) {
        AddKeepsCap(Contents(t).Keys, self, keyFilter.max, kk);
      }
      var next, s := AddPersistent(root, 0, kk, node, shape);
      if next == root {
        return false;
      }
      Store(next, s);
      return true;
    }

    /** Delete; the result says whether the key was there. */
    method RemoveKey(kk: Key) returns (removed: bool)
      requires Valid() && |kk| == |self|
      modifies this
      ensures Valid() && Table() == old(Table()) - {kk}
      ensures removed <==> kk in old(Table())
      ensures forall max :: old(Capped(Table().Keys, self, max)) ==> Capped(Table().Keys, self, max)
    {
      assert kk[..0] == [];
      ghost var t := Abs(shape);
      RemoveDeletes(t, 0, kk);
      var next, s := RemovePersistent(root, 0, kk, shape);
      forall max | Capped(Contents(t).Keys, self, max) ensures Capped(Contents(Abs(s)).Keys, self, max) {
        RemoveKeepsCap(Contents(t).Keys, self, max, kk);
        assert Contents(Abs(s)).Keys == Contents(t).Keys - {kk};
      }
      if next == root {
        return false;
      }
      Store(next, s);
      return true;
    }

    function GetNode(kk: Key): (r: Option<N>)
      requires Valid() && |kk| == |self|
      reads this, Nodes(shape)
      ensures r == if kk in Table() then Some(Table()[kk]) else None
    {
      assert kk[..0] == [];
      FindLooksUp(Abs(shape), 0, kk);
      FindFrom(root, 0, kk, shape).0
    }

    function Size(): (size: nat)
      requires Valid()
      reads this, Nodes(shape)
      ensures size == |Table().Keys|
    {
      SizeCounts(Abs(shape), [], |self|);
      SizeFrom(root, shape)
    }

    /** For n >= 1: the n stored nodes nearest to target, nearest first. For other n, the data of whatever
        entries the trie search returns; ClosestRightIff says when those are right. */
    method NearestNodes(target: Key, n: int) returns (nodes: seq<N>)
      requires Valid() && |target| == |self|
      ensures old(Height(Abs(shape))) <= |target| && nodes == EntryData(ClosestAt(old(Abs(shape)), target, n, 0))
      ensures n >= 1 ==> KeysFit(old(Table()), target) && nodes == NearestNodesOf(old(Table()), target, n)
    {
      HeightBound(Abs(shape), [], |self|);
      var closestEntries := ClosestFrom(root, target, n, 0, shape);
      nodes := [];
      for i := 0 to |closestEntries|
        invariant nodes == EntryData(closestEntries[..i])
      {
        nodes := nodes + [closestEntries[i].data];
        assert EntryData(closestEntries[..i + 1]) == EntryData(closestEntries[..i]) + [closestEntries[i].data];
      }
      assert closestEntries[..|closestEntries|] == closestEntries;
      if n >= 1 {
        ClosestData(Abs(shape), target, n);
      }
    }
  }

  /** A table of two keys: adding the first one again changes nothing, and is reported as a change. */
  method AddedAgain<N(0)>(node: N) returns (rt: TrieRT<N>, kk: Key, changed: bool, ghost before: map<Key, N>)
    ensures rt.Valid() && rt.keyFilter == NoFilter && |kk| == |rt.self| && kk in before
    ensures rt.Table() == before && changed
  {
    kk := [false, true];
    var other := [true, true];
    rt := new TrieRT([false, false], NoFilter);
    var _ := rt.AddNode(kk, node);
    var _ := rt.AddNode(other, node);
    before := rt.Table();
    assert other in before.Keys && other != kk;
    changed := rt.AddNode(kk, node);
  }

  function EntryData<N>(es: seq<Entry<N>>): seq<N> {
    seq(|es|, i requires 0 <= i < |es| => es[i].data)
  }

  /** The data of the entries found are the nearest nodes of the contents. */
  lemma ClosestData<N>(t: Trie<N>, target: Key, n: nat)
    requires n >= 1 && Rooted(t, |target|)
    ensures Height(t) <= |target| && KeysFit(Contents(t), target)
    ensures EntryData(ClosestAt(t, target, n, 0)) == NearestNodesOf(Contents(t), target, n)
  {
    HeightBound(t, [], |target|);
    ClosestAnswers(t, [], target, n);
    ClosestHolds(t, [], target, n);
  }

  /** Adding at the root, as the table needs it. */
  lemma AddFromRoot<N>(t: Trie<N>, kk: Key, node: N)
    requires Rooted(t, |kk|)
    ensures kk[..0] == []
    ensures var u := AddAt(t, 0, kk, node);
      && Rooted(u, |kk|)
      && Contents(u) == Insert(Contents(t), kk, node)
      && Contents(u).Keys == Contents(t).Keys + {kk}
    ensures Contents(t).Keys == {kk} <==> t.Leaf? && t.key == kk
    ensures kk in Contents(t) ==> AddAt(t, 0, kk, node) == t
  {
    assert kk[..0] == [];
    AddInserts(t, 0, kk, node);
    OnlyKeyIsLeaf(t, kk);
  }

  lemma OnlyKeyIsLeaf<N>(t: Trie<N>, kk: Key)
    requires Rooted(t, |kk|)
    ensures Contents(t).Keys == {kk} <==> t.Leaf? && t.key == kk
  {
    SizeCounts(t, [], |kk|);
    if t.Node? { NodeHoldsTwo(t, [], |kk|); }
    if t.Leaf? { assert t.key in Contents(t).Keys; }
  }
}
