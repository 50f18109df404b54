/** The trie as the program holds it: nodes on the heap, updated in place or copied along one path.

    A Shape lists the nodes of one trie. It is ghost: the code below never looks at it. */
module HeapTries {
  import opened Keys
  import opened Options
  import opened Tries
  import opened TrieShape
  import opened TrieSearch

  class TrieNode<D(0)> {
    var b0: TrieNode?<D>
    var b1: TrieNode?<D>
    var key: Option<Key>
    var data: D

    constructor EmptyNode()
      ensures b0 == null && b1 == null && key == None
    {
      b0, b1, key, data := null, null, None, *;
    }

    constructor LeafNode(k: Key, v: D)
      ensures b0 == null && b1 == null && key == Some(k) && data == v
    {
      b0, b1, key, data := null, null, Some(k), v;
    }

    /** A node whose branch in direction dir is s and whose other branch is o. */
    constructor InnerNode(dir: bool, s: TrieNode<D>, o: TrieNode<D>)
      ensures b0 == (if dir then o else s) && b1 == (if dir then s else o) && key == None
    {
      b0, b1, key, data := if dir then o else s, if dir then s else o, None, *;
    }

    predicate IsLeaf()
      reads this
    {
      b0 == null && b1 == null
    }

    predicate IsEmptyLeaf()
      reads this
    {
      key == None && IsLeaf()
    }

    predicate IsNonEmptyLeaf()
      reads this
    {
      key.Some? && IsLeaf()
    }
  }

  datatype Shape<D(0)> =
    | Tip(n: TrieNode<D>)
    | Fork(n: TrieNode<D>, s0: Shape<D>, s1: Shape<D>)
  {
    ghost function Branch(dir: bool): Shape<D>
      requires Fork?
    {
      if dir then s1 else s0
    }
  }

  ghost function JoinShape<D(0)>(n: TrieNode<D>, dir: bool, s: Shape<D>, o: Shape<D>): Shape<D> {
    if dir then Fork(n, o, s) else Fork(n, s, o)
  }

  ghost function Nodes<D(0)>(s: Shape<D>): set<TrieNode<D>> {
    match s
    case Tip(n) => {n}
    case Fork(n, s0, s1) => {n} + Nodes(s0) + Nodes(s1)
  }

  /** The nodes are linked as the shape says, form a tree, and only leaves have keys. */
  ghost predicate Linked<D(0)>(s: Shape<D>)
    reads Nodes(s)
  {
    match s
    case Tip(n) => n.b0 == null && n.b1 == null
    case Fork(n, s0, s1) =>
      && n.b0 == s0.n && n.b1 == s1.n && n.key == None
      && n !in Nodes(s0) && n !in Nodes(s1) && Nodes(s0) !! Nodes(s1)
      && Linked(s0) && Linked(s1)
  }

  /** The trie the nodes stand for. */
  ghost function Abs<D(0)>(s: Shape<D>): Trie<D>
    reads Nodes(s)
  {
    match s
    case Tip(n) => if n.key.Some? then Leaf(n.key.value, n.data) else Empty
    case Fork(_, s0, s1) => Node(Abs(s0), Abs(s1))
  }

  lemma NodesAllocated<D(0)>(s: Shape<D>)
    ensures forall n :: n in Nodes(s) ==> allocated(n)
  {
    if s.Fork? {
      NodesAllocated(s.s0);
      NodesAllocated(s.s1);
    }
  }

  // ---------- in place ----------

  method AddInPlace<D(0)>(tr: TrieNode<D>, depth: nat, kk: Key, v: D, ghost s: Shape<D>)
    returns (added: bool, ghost s': Shape<D>)
    requires s.n == tr && Linked(s) && depth <= |kk| && WellFormed(Abs(s), kk[..depth], |kk|)
    modifies Nodes(s)
    ensures s'.n == tr && Linked(s')
    ensures forall n :: n in Nodes(s') ==> n in Nodes(s) || fresh(n)
    ensures Abs(s') == AddAt(old(Abs(s)), depth, kk, v)
    ensures added <==> kk !in Contents(old(Abs(s)))
    decreases |kk| - depth, 1
  {
    ghost var t := Abs(s);
    if tr.IsLeaf() {
      if tr.key == None {
        tr.key := Some(kk);
        tr.data := v;
        return true, s;
      }
      var p := tr.key.value;
      if p == kk {
        return false, s;
      }
      AgreeOnPath(p, kk, depth);
      CplFacts(p, kk);
      PathStep(kk, depth);
      ghost var f := SplitLeaf(tr, depth, p);
      assert Nodes(s) == {tr};
      label Split:
      added, s' := AddBelow(tr, depth, kk, v, f);
      assert forall n :: n in Nodes(s') ==> n in Nodes(f) || !old@Split(allocated(n));
    } else {
      PathStep(kk, depth);
      InOwnBranch(t, depth, kk);
      added, s' := AddBelow(tr, depth, kk, v, s);
    }
  }

  /** Turn a leaf into a node with the leaf's key one level further down and an empty leaf beside it. */
  method SplitLeaf<D(0)>(tr: TrieNode<D>, depth: nat, p: Key) returns (ghost s: Shape<D>)
    requires tr.b0 == null && tr.b1 == null && tr.key == Some(p) && depth < |p|
    modifies tr
    ensures s.Fork? && s.n == tr && Linked(s)
    ensures forall n :: n in Nodes(s) ==> n == tr || fresh(n)
    ensures Abs(s) == Join(p[depth], Leaf(p, old(tr.data)), Empty)
  {
    var d := tr.data;
    tr.key, tr.data := None, *;
    var own := new TrieNode<D>.LeafNode(p, d);
    var other := new TrieNode<D>.EmptyNode();
    tr.b0, tr.b1 := if p[depth] then other else own, if p[depth] then own else other;
    s := JoinShape(tr, p[depth], Tip(own), Tip(other));
  }

  /** Add into the branch of a node that kk leads to. */
  method AddBelow<D(0)>(tr: TrieNode<D>, depth: nat, kk: Key, v: D, ghost s: Shape<D>)
    returns (added: bool, ghost s': Shape<D>)
    requires s.Fork? && s.n == tr && Linked(s) && depth < |kk|
    requires WellFormed(Abs(s).Branch(kk[depth]), kk[..depth + 1], |kk|)
    modifies Nodes(s)
    ensures s'.n == tr && Linked(s')
    ensures forall n :: n in Nodes(s') ==> n in Nodes(s) || fresh(n)
    ensures var t := old(Abs(s));
      Abs(s') == Join(kk[depth], AddAt(t.Branch(kk[depth]), depth + 1, kk, v), t.Branch(!kk[depth]))
    ensures added <==> kk !in Contents(old(Abs(s)).Branch(kk[depth]))
    decreases |kk| - depth, 0
  {
    var next := if kk[depth] then tr.b1 else tr.b0;
    ghost var own, other := s.Branch(kk[depth]), s.Branch(!kk[depth]);
    assert Nodes(own) !! Nodes(other) && tr !in Nodes(own) && tr !in Nodes(other) && Linked(own) && Linked(other);
    NodesAllocated(other);
    ghost var c;
    added, c := AddInPlace(next, depth + 1, kk, v, own);
    assert Nodes(c) !! Nodes(other) && tr !in Nodes(c);
    assert Linked(other) && Abs(other) == old(Abs(other));
    s' := JoinShape(tr, kk[depth], c, other);
    assert Linked(s');
  }

  /** Collapse a node whose branches can no longer both stay, by moving a leaf's key up. */
  method ShrinkInPlace<D(0)>(tr: TrieNode<D>, ghost s: Shape<D>) returns (ghost s': Shape<D>)
    requires s.Fork? && s.n == tr && Linked(s)
    modifies tr
    ensures s'.n == tr && Linked(s') && Nodes(s') <= Nodes(s)
    ensures Abs(s') == Shrink(old(Abs(s)))
  {
    var b0, b1 := tr.b0, tr.b1;
    s' := s;
    if b0.IsEmptyLeaf() && b1.IsEmptyLeaf() {
      tr.b0, tr.b1 := null, null;
      s' := Tip(tr);
    } else if b0.IsEmptyLeaf() && b1.IsNonEmptyLeaf() {
      tr.key, tr.data := b1.key, b1.data;
      tr.b0, tr.b1 := null, null;
      s' := Tip(tr);
    } else if b0.IsNonEmptyLeaf() && b1.IsEmptyLeaf() {
      tr.key, tr.data := b0.key, b0.data;
      tr.b0, tr.b1 := null, null;
      s' := Tip(tr);
    }
  }

  method RemoveInPlace<D(0)>(tr: TrieNode<D>, depth: nat, kk: Key, ghost s: Shape<D>)
    returns (removed: bool, ghost s': Shape<D>)
    requires s.n == tr && Linked(s) && depth <= |kk| && WellFormed(Abs(s), kk[..depth], |kk|)
    modifies Nodes(s)
    ensures s'.n == tr && Linked(s') && Nodes(s') <= Nodes(s)
    ensures Abs(s') == RemoveAt(old(Abs(s)), depth, kk)
    ensures removed <==> kk in Contents(old(Abs(s)))
    decreases |kk| - depth
  {
    ghost var t := Abs(s);
    if tr.IsLeaf() {
      if tr.key == None || tr.key.value != kk {
        return false, s;
      }
      tr.key, tr.data := None, *;
      return true, s;
    }
    PathStep(kk, depth);
    var next := if kk[depth] then tr.b1 else tr.b0;
    ghost var own, other := s.Branch(kk[depth]), s.Branch(!kk[depth]);
    assert Nodes(own) !! Nodes(other) && tr !in Nodes(own) && tr !in Nodes(other) && Linked(own) && Linked(other);
    NodesAllocated(other);
    ghost var c;
    removed, c := RemoveInPlace(next, depth + 1, kk, own);
    ghost var j := JoinShape(tr, kk[depth], c, other);
    assert Linked(other) && Abs(other) == old(Abs(other));
    assert Abs(j) == Join(kk[depth], RemoveAt(t.Branch(kk[depth]), depth + 1, kk), t.Branch(!kk[depth]));
    InOwnBranch(t, depth, kk);
    if removed {
      s' := ShrinkInPlace(tr, j);
    } else {
      s' := j;
      RemoveDeletes(t.Branch(kk[depth]), depth + 1, kk);
      RemoveDeletes(t, depth, kk);
    }
  }

  // ---------- persistent: every method below changes no existing node ----------

  /** A fresh node over two tries that share nothing. */
  method JoinNodes<D(0)>(dir: bool, b: TrieNode<D>, o: TrieNode<D>, ghost c: Shape<D>, ghost other: Shape<D>)
    returns (r: TrieNode<D>)
    requires c.n == b && other.n == o && Linked(c) && Linked(other) && Nodes(c) !! Nodes(other)
    ensures fresh(r) && Linked(JoinShape(r, dir, c, other))
    ensures Nodes(JoinShape(r, dir, c, other)) == {r} + Nodes(c) + Nodes(other)
    ensures Abs(JoinShape(r, dir, c, other)) == Join(dir, old(Abs(c)), old(Abs(other)))
  {
    NodesAllocated(c);
    NodesAllocated(other);
    r := new TrieNode<D>.InnerNode(dir, b, o);
  }

  method TrieForTwoNodes<D(0)>(depth: nat, p: Key, pv: D, q: Key, qv: D)
    returns (r: TrieNode<D>, ghost s': Shape<D>)
    requires |p| == |q| && depth <= Cpl(p, q) < |p|
    ensures s'.n == r && Linked(s')
    ensures forall n :: n in Nodes(s') ==> fresh(n)
    ensures Abs(s') == TrieForTwo(depth, p, pv, q, qv)
    decreases |p| - depth
  {
    CplFacts(p, q);
    if p[depth] == q[depth] {
      var b, c := TrieForTwoNodes(depth + 1, p, pv, q, qv);
      NodesAllocated(c);
      var o := new TrieNode<D>.EmptyNode();
      assert o !in Nodes(c);
      r := JoinNodes(p[depth], b, o, c, Tip(o));
      s' := JoinShape(r, p[depth], c, Tip(o));
    } else {
      r, s' := TwoLeaves(p[depth], p, pv, q, qv);
    }
  }

  method TwoLeaves<D(0)>(dir: bool, p: Key, pv: D, q: Key, qv: D) returns (r: TrieNode<D>, ghost s': Shape<D>)
    ensures s'.n == r && Linked(s')
    ensures forall n :: n in Nodes(s') ==> fresh(n)
    ensures Abs(s') == Join(dir, Leaf(p, pv), Leaf(q, qv))
  {
    var b := new TrieNode<D>.LeafNode(p, pv);
    var o := new TrieNode<D>.LeafNode(q, qv);
    r := JoinNodes(dir, b, o, Tip(b), Tip(o));
    s' := JoinShape(r, dir, Tip(b), Tip(o));
  }

  /** Copy the path to kk; the rest of the new trie is shared with the old one. The very node tr comes
      back exactly when it is a leaf that already holds kk. */
  method AddPersistent<D(0)>(tr: TrieNode<D>, depth: nat, kk: Key, v: D, ghost s: Shape<D>)
    returns (r: TrieNode<D>, ghost s': Shape<D>)
    requires s.n == tr && Linked(s) && depth <= |kk| && WellFormed(Abs(s), kk[..depth], |kk|)
    ensures s'.n == r && Linked(s')
    ensures forall n :: n in Nodes(s') ==> n in Nodes(s) || fresh(n)
    ensures Abs(s') == AddAt(old(Abs(s)), depth, kk, v)
    ensures r == tr <==> old(Abs(s)).Leaf? && old(Abs(s)).key == kk
    ensures r == tr ==> s' == s
    decreases |kk| - depth
  {
    if tr.IsEmptyLeaf() {
      r := new TrieNode<D>.LeafNode(kk, v);
      s' := Tip(r);
    } else if tr.IsNonEmptyLeaf() {
      if tr.key.value == kk {
        return tr, s;
      }
      AgreeOnPath(tr.key.value, kk, depth);
      r, s' := TrieForTwoNodes(depth, tr.key.value, tr.data, kk, v);
      assert r in Nodes(s');
    } else {
      PathStep(kk, depth);
      var dir := kk[depth];
      ghost var own, other := s.Branch(dir), s.Branch(!dir);
      assert Nodes(own) !! Nodes(other) && Linked(own) && Linked(other);
      NodesAllocated(other);
      var b, c := AddPersistent(if dir then tr.b1 else tr.b0, depth + 1, kk, v, own);
      assert Nodes(c) !! Nodes(other);
      r := JoinNodes(dir, b, if dir then tr.b0 else tr.b1, c, other);
      s' := JoinShape(r, dir, c, other);
    }
  }

  /** The very node tr comes back exactly when kk was not there. */
  method RemovePersistent<D(0)>(tr: TrieNode<D>, depth: nat, kk: Key, ghost s: Shape<D>)
    returns (r: TrieNode<D>, ghost s': Shape<D>)
    requires s.n == tr && Linked(s) && depth <= |kk| && WellFormed(Abs(s), kk[..depth], |kk|)
    ensures s'.n == r && Linked(s')
    ensures forall n :: n in Nodes(s') ==> n in Nodes(s) || fresh(n)
    ensures Abs(s') == RemoveAt(old(Abs(s)), depth, kk)
    ensures r == tr <==> kk !in Contents(old(Abs(s)))
    ensures r == tr ==> s' == s
    decreases |kk| - depth
  {
    RemoveDeletes(Abs(s), depth, kk);
    if tr.IsEmptyLeaf() {
      r, s' := tr, s;
    } else if tr.IsNonEmptyLeaf() {
      if tr.key.value != kk {
        return tr, s;
      }
      r := new TrieNode<D>.EmptyNode();
      s' := Tip(r);
    } else {
      PathStep(kk, depth);
      var dir := kk[depth];
      ghost var own, other := s.Branch(dir), s.Branch(!dir);
      assert Nodes(own) !! Nodes(other) && Linked(own) && Linked(other);
      InOwnBranch(Abs(s), depth, kk);
      NodesAllocated(other);
      var before := if dir then tr.b1 else tr.b0;
      var b, c := RemovePersistent(before, depth + 1, kk, own);
      if b == before {
        return tr, s;
      }
      assert Nodes(c) !! Nodes(other);
      r, s' := JoinShrunk(dir, b, if dir then tr.b0 else tr.b1, c, other);
    }
  }

  /** A fresh node over two tries that share nothing, shrunk. */
  method JoinShrunk<D(0)>(dir: bool, b: TrieNode<D>, o: TrieNode<D>, ghost c: Shape<D>, ghost other: Shape<D>)
    returns (r: TrieNode<D>, ghost s': Shape<D>)
    requires c.n == b && other.n == o && Linked(c) && Linked(other) && Nodes(c) !! Nodes(other)
    ensures s'.n == r && fresh(r) && Linked(s') && Nodes(s') <= {r} + Nodes(c) + Nodes(other)
    ensures Abs(s') == Shrink(Join(dir, old(Abs(c)), old(Abs(other))))
  {
    r := JoinNodes(dir, b, o, c, other);
    s' := ShrinkInPlace(r, JoinShape(r, dir, c, other));
  }

  // ---------- reading ----------

  function SizeFrom<D(0)>(tr: TrieNode<D>, ghost s: Shape<D>): (size: nat)
    requires s.n == tr && Linked(s)
    reads Nodes(s)
    ensures size == Size(Abs(s))
    decreases s
  {
    if tr.IsLeaf() then
      if tr.key == None then 0 else 1
    else
      SizeFrom(tr.b0, s.s0) + SizeFrom(tr.b1, s.s1)
  }

  function FindFrom<D(0)>(tr: TrieNode<D>, depth: nat, kk: Key, ghost s: Shape<D>): (r: (Option<D>, nat))
    requires s.n == tr && Linked(s) && depth <= |kk| && WellFormed(Abs(s), kk[..depth], |kk|)
    reads Nodes(s)
    ensures r == FindAt(Abs(s), depth, kk)
    decreases s
  {
    if tr.IsLeaf() then
      (if tr.key == None || tr.key.value != kk then None else Some(tr.data), depth)
    else
      PathStep(kk, depth);
      FindFrom(if kk[depth] then tr.b1 else tr.b0, depth + 1, kk, s.Branch(kk[depth]))
  }

  function EqualFrom<D(0)>(a: TrieNode<D>, b: TrieNode<D>, ghost s: Shape<D>, ghost t: Shape<D>): (eq: bool)
    requires s.n == a && Linked(s) && t.n == b && Linked(t)
    reads Nodes(s), Nodes(t)
    ensures eq == Equal(Abs(s), Abs(t))
    decreases s
  {
    if a.IsLeaf() || b.IsLeaf() then
      a.IsLeaf() && b.IsLeaf() && a.key == b.key
    else
      EqualFrom(a.b0, b.b0, s.s0, t.s0) && EqualFrom(a.b1, b.b1, s.s1, t.s1)
  }

  function ClosestFrom<D(0)>(tr: TrieNode<D>, target: Key, n: int, depth: nat, ghost s: Shape<D>): (es: seq<Entry<D>>)
    requires s.n == tr && Linked(s) && depth + Height(Abs(s)) <= |target|
    reads Nodes(s)
    ensures es == ClosestAt(Abs(s), target, n, depth)
    decreases s
  {
    if tr.IsLeaf() then
      if tr.key == None then [] else [Entry(tr.key.value, tr.data)]
    else
      var dir := target[depth];
      var found := ClosestFrom(if dir then tr.b1 else tr.b0, target, n, depth + 1, s.Branch(dir));
      if |found| == n then found
      else found + ClosestFrom(if dir then tr.b0 else tr.b1, target, n - |found|, depth + 1, s.Branch(!dir))
  }

  function CountCplFrom<D(0)>(tr: TrieNode<D>, kk: Key, cpl: int, depth: nat, ghost s: Shape<D>): (count: nat)
    requires s.n == tr && Linked(s) && depth <= |kk| && WellFormed(Abs(s), kk[..depth], |kk|)
    reads Nodes(s)
    ensures count == CountCpl(Abs(s), kk, cpl, depth)
    decreases s
  {
    if tr.IsLeaf() then
      if tr.key.Some? && Cpl(kk, tr.key.value) == cpl then 1 else 0
    else if depth == cpl then
      SizeFrom(if kk[depth] then tr.b0 else tr.b1, s.Branch(!kk[depth]))
    else
      PathStep(kk, depth);
      CountCplFrom(if kk[depth] then tr.b1 else tr.b0, kk, cpl, depth + 1, s.Branch(kk[depth]))
  }

  // ---------- every version stays readable ----------

  lemma {:induction false} RunOneMore<D>(t: Trie<D>, us: seq<Update<D>>, u: Update<D>, n: nat)
    requires Rooted(t, n) && UpdatesOn(us + [u], n)
    ensures UpdatesOn(us, n) && |u.key| == n
    ensures Run(t, us + [u], n) == Step(Run(t, us, n), u)
    decreases |us|
  {
    assert (us + [u])[|us|] == u;
    assert forall i :: 0 <= i < |us| ==> (us + [u])[i] == us[i];
    if us != [] {
      assert (us + [u])[1..] == us[1..] + [u];
      StepRefines(t, us[0]);
      assert UpdatesOn(us[1..] + [u], n);
      RunOneMore(Step(t, us[0]), us[1..], u, n);
    }
  }

  /** Apply updates persistently, keeping every intermediate root: in the end each of them still reads
      as the trie it was when it was made. */
  method Versions<D(0)>(us: seq<Update<D>>, ghost n: nat) returns (roots: seq<TrieNode<D>>, ghost shapes: seq<Shape<D>>)
    requires UpdatesOn(us, n)
    ensures |roots| == |shapes| == |us| + 1
    ensures forall i :: 0 <= i <= |us| ==>
      shapes[i].n == roots[i] && Linked(shapes[i]) && UpdatesOn(us[..i], n) && Abs(shapes[i]) == Run(Empty, us[..i], n)
  {
    var root := new TrieNode<D>.EmptyNode();
    roots, shapes := [root], [Tip(root)];
    for i := 0 to |us|
      invariant |roots| == |shapes| == i + 1
      invariant forall j :: 0 <= j <= i ==>
        && shapes[j].n == roots[j] && Linked(shapes[j])
        && UpdatesOn(us[..j], n) && Abs(shapes[j]) == Run(Empty, us[..j], n)
    {
      var u := us[i];
      assert |u.key| == n && u.key[..0] == [];
      assert us[..i + 1] == us[..i] + [u];
      RunOneMore(Empty, us[..i], u, n);
      forall j | 0 <= j <= i ensures forall x :: x in Nodes(shapes[j]) ==> allocated(x) {
        NodesAllocated(shapes[j]);
      }
      var r;
      ghost var s;
      match u {
        case Add(k, v) => r, s := AddPersistent(roots[i], 0, k, v, shapes[i]);
        case Remove(k) => r, s := RemovePersistent(roots[i], 0, k, shapes[i]);
      }
      roots, shapes := roots + [r], shapes + [s];
    }
  }
}
