/** The XOR trie: values in the leaves, one bit of the key per level, most significant bit first. */
module Tries {
  import opened Keys
  import opened Options

  datatype Trie<D> = Empty | Leaf(key: Key, data: D) | Node(b0: Trie<D>, b1: Trie<D>)
  {
    function Branch(dir: bool): Trie<D>
      requires Node?
    {
      if dir then b1 else b0
    }
  }

  /** A node whose branch in direction dir is s and whose other branch is o. */
  function Join<D>(dir: bool, s: Trie<D>, o: Trie<D>): Trie<D> {
    if dir then Node(o, s) else Node(s, o)
  }

  function Size<D>(t: Trie<D>): nat {
    match t
    case Empty => 0
    case Leaf(_, _) => 1
    case Node(b0, b1) => Size(b0) + Size(b1)
  }

  ghost function Contents<D>(t: Trie<D>): map<Key, D> {
    match t
    case Empty => map[]
    case Leaf(k, v) => map[k := v]
    case Node(b0, b1) => Contents(b0) + Contents(b1)
  }

  ghost predicate HasPrefix(k: Key, p: Key) {
    |p| <= |k| && forall i :: 0 <= i < |p| ==> k[i] == p[i]
  }

  /** The trie invariants, for the subtree reached by following the bits p among keys of n bits:
      every key below lies on its own path, and if both branches are leaves, both hold keys. */
  ghost predicate WellFormed<D>(t: Trie<D>, p: Key, n: nat) {
    match t
    case Empty => |p| <= n
    case Leaf(k, _) => |k| == n && HasPrefix(k, p)
    case Node(b0, b1) =>
      && |p| < n
      && WellFormed(b0, p + [false], n)
      && WellFormed(b1, p + [true], n)
      && (b0.Node? || b1.Node? || (b0.Leaf? && b1.Leaf?))
  }

  lemma {:induction false} ContentsOnPath<D>(t: Trie<D>, p: Key, n: nat)
    requires WellFormed(t, p, n)
    ensures forall k :: k in Contents(t) ==> |k| == n && HasPrefix(k, p)
  {
    if t.Node? {
      ContentsOnPath(t.b0, p + [false], n);
      ContentsOnPath(t.b1, p + [true], n);
      forall k | k in Contents(t) ensures |k| == n && HasPrefix(k, p) {
        var b := k in Contents(t.b1);
        assert HasPrefix(k, p + [b]);
        assert forall i :: 0 <= i < |p| ==> (p + [b])[i] == p[i];
      }
    }
  }

  /** The two branches of a node hold the keys whose next bit is 0 and 1. */
  lemma BranchContents<D>(t: Trie<D>, p: Key, n: nat)
    requires t.Node? && WellFormed(t, p, n)
    ensures forall k :: k in Contents(t) ==> |k| == n && HasPrefix(k, p) && k in Contents(t.Branch(k[|p|]))
    ensures forall b, k :: k in Contents(t.Branch(b)) ==>
      |k| == n && HasPrefix(k, p) && k[|p|] == b && k in Contents(t) && Contents(t)[k] == Contents(t.Branch(b))[k]
  {
    forall b, k | k in Contents(t.Branch(b))
      ensures |k| == n && HasPrefix(k, p) && k[|p|] == b
    {
      ContentsOnPath(t.Branch(b), p + [b], n);
      assert HasPrefix(k, p + [b]);
      assert k[|p|] == (p + [b])[|p|];
      assert forall i :: 0 <= i < |p| ==> (p + [b])[i] == p[i];
    }
    forall k | k in Contents(t)
      ensures |k| == n && HasPrefix(k, p) && k in Contents(t.Branch(k[|p|]))
    {
      assert k in Contents(t.Branch(false)) || k in Contents(t.Branch(true));
    }
    forall b, k | k in Contents(t.Branch(b))
      ensures k in Contents(t) && Contents(t)[k] == Contents(t.Branch(b))[k]
    {
      assert k !in Contents(t.Branch(!b));
    }
  }

  lemma PathStep(k: Key, d: nat)
    requires d < |k|
    ensures k[..d] + [k[d]] == k[..d + 1]
  {
  }

  /** A key is looked for in the branch its next bit names. */
  lemma InOwnBranch<D>(t: Trie<D>, d: nat, k: Key)
    requires d <= |k| && t.Node? && WellFormed(t, k[..d], |k|)
    ensures d < |k| && WellFormed(t.Branch(k[d]), k[..d + 1], |k|)
    ensures k in Contents(t) <==> k in Contents(t.Branch(k[d]))
  {
    BranchContents(t, k[..d], |k|);
    PathStep(k, d);
  }

  // ---------- persistent operations ----------

  /** The trie holding exactly two keys that agree on their first d bits and differ later. */
  function TrieForTwo<D>(d: nat, p: Key, pv: D, q: Key, qv: D): Trie<D>
    requires |p| == |q| && d <= Cpl(p, q) < |p|
    decreases |p| - d
  {
    CplFacts(p, q);
    if p[d] == q[d] then Join(p[d], TrieForTwo(d + 1, p, pv, q, qv), Empty)
    else Join(p[d], Leaf(p, pv), Leaf(q, qv))
  }

  function AddAt<D>(t: Trie<D>, d: nat, k: Key, v: D): Trie<D>
    requires d <= |k| && WellFormed(t, k[..d], |k|)
    decreases t
  {
    match t
    case Empty => Leaf(k, v)
    case Leaf(p, pv) =>
      if p == k then t else
      AgreeOnPath(p, k, d);
      TrieForTwo(d, p, pv, k, v)
    case Node(_, _) =>
      PathStep(k, d);
      Join(k[d], AddAt(t.Branch(k[d]), d + 1, k, v), t.Branch(!k[d]))
  }

  lemma AgreeOnPath(p: Key, k: Key, d: nat)
    requires d <= |k| == |p| && HasPrefix(p, k[..d])
    ensures d <= Cpl(p, k) && (p != k ==> Cpl(p, k) < |k|)
  {
    CplFacts(p, k);
    assert forall i :: 0 <= i < d ==> p[i] == k[..d][i];
  }

  /** Collapse a node whose branches can no longer both stay. */
  function Shrink<D>(t: Trie<D>): Trie<D>
    requires t.Node?
  {
    match (t.b0, t.b1)
    case (Empty, Empty) => Empty
    case (Empty, Leaf(_, _)) => t.b1
    case (Leaf(_, _), Empty) => t.b0
    case _ => t
  }

  function RemoveAt<D>(t: Trie<D>, d: nat, k: Key): Trie<D>
    requires d <= |k| && WellFormed(t, k[..d], |k|)
    decreases t
  {
    match t
    case Empty => Empty
    case Leaf(p, _) => if p == k then Empty else t
    case Node(_, _) =>
      PathStep(k, d);
      Shrink(Join(k[d], RemoveAt(t.Branch(k[d]), d + 1, k), t.Branch(!k[d])))
  }

  /** Follow the bits of k down to a leaf: the data found under k, if any, and the leaf's depth. */
  function FindAt<D>(t: Trie<D>, d: nat, k: Key): (r: (Option<D>, nat))
    requires d <= |k| && WellFormed(t, k[..d], |k|)
    decreases t
  {
    match t
    case Empty => (None, d)
    case Leaf(p, pv) => (if p == k then Some(pv) else None, d)
    case Node(_, _) =>
      PathStep(k, d);
      FindAt(t.Branch(k[d]), d + 1, k)
  }

  // ---------- the operations realise a map from keys to data ----------

  function Insert<D>(m: map<Key, D>, k: Key, v: D): map<Key, D> {
    if k in m then m else m[k := v]
  }

  lemma {:induction false} TrieForTwoHoldsBoth<D>(d: nat, p: Key, pv: D, q: Key, qv: D)
    requires |p| == |q| && d <= Cpl(p, q) < |p|
    ensures var t := TrieForTwo(d, p, pv, q, qv);
      WellFormed(t, q[..d], |q|) && t.Node? && Contents(t) == map[p := pv, q := qv]
    decreases |p| - d
  {
    PathStep(q, d);
    PathStep(p, d);
    CplFacts(p, q);
    assert p[..d] == q[..d];
    if p[d] == q[d] {
      TrieForTwoHoldsBoth(d + 1, p, pv, q, qv);
    }
  }

  lemma JoinContents<D>(dir: bool, s: Trie<D>, o: Trie<D>)
    requires Contents(s).Keys !! Contents(o).Keys
    ensures Contents(Join(dir, s, o)) == Contents(s) + Contents(o)
  {
  }

  /** A node's contents are those of the branch that k leads to and, apart from k, those of the other one. */
  lemma SplitContents<D>(t: Trie<D>, p: Key, k: Key)
    requires t.Node? && WellFormed(t, p, |k|) && HasPrefix(k, p)
    ensures var a, b := Contents(t.Branch(k[|p|])), Contents(t.Branch(!k[|p|]));
      a.Keys !! b.Keys && k !in b && Contents(t) == a + b
  {
    BranchContents(t, p, |k|);
    JoinContents(k[|p|], t.Branch(k[|p|]), t.Branch(!k[|p|]));
  }

  lemma InsertUnion<D>(a: map<Key, D>, b: map<Key, D>, k: Key, v: D)
    requires a.Keys !! b.Keys && k !in b
    ensures Insert(a, k, v) + b == Insert(a + b, k, v)
  {
  }

  lemma JoinInserts<D>(t: Trie<D>, s: Trie<D>, p: Key, k: Key, v: D)
    requires t.Node? && WellFormed(t, p, |k|) && HasPrefix(k, p)
    requires Contents(s) == Insert(Contents(t.Branch(k[|p|])), k, v)
    ensures Contents(Join(k[|p|], s, t.Branch(!k[|p|]))) == Insert(Contents(t), k, v)
  {
    var dir := k[|p|];
    SplitContents(t, p, k);
    JoinContents(dir, s, t.Branch(!dir));
    InsertUnion(Contents(t.Branch(dir)), Contents(t.Branch(!dir)), k, v);
  }

  lemma JoinRemoves<D>(t: Trie<D>, s: Trie<D>, p: Key, k: Key)
    requires t.Node? && WellFormed(t, p, |k|) && HasPrefix(k, p)
    requires Contents(s) == Contents(t.Branch(k[|p|])) - {k}
    ensures Contents(Join(k[|p|], s, t.Branch(!k[|p|]))) == Contents(t) - {k}
  {
    SplitContents(t, p, k);
    JoinContents(k[|p|], s, t.Branch(!k[|p|]));
  }

  /** Add inserts if absent and keeps the trie well formed. */
  lemma {:induction false} AddInserts<D>(t: Trie<D>, d: nat, k: Key, v: D)
    requires d <= |k| && WellFormed(t, k[..d], |k|)
    ensures var s := AddAt(t, d, k, v);
      && WellFormed(s, k[..d], |k|)
      && s != Empty && (t.Node? ==> s.Node?)
      && Contents(s) == Insert(Contents(t), k, v)
      && (k in Contents(t) ==> s == t)
    decreases t
  {
    match t
    case Empty =>
    case Leaf(p, pv) =>
      if p != k {
        AgreeOnPath(p, k, d);
        TrieForTwoHoldsBoth(d, p, pv, k, v);
      }
    case Node(_, _) =>
      PathStep(k, d);
      var dir := k[d];
      AddInserts(t.Branch(dir), d + 1, k, v);
      JoinInserts(t, AddAt(t.Branch(dir), d + 1, k, v), k[..d], k, v);
      InOwnBranch(t, d, k);
  }

  lemma WellFormedShrink<D>(t: Trie<D>, p: Key, n: nat)
    requires t.Node? && |p| < n
    requires WellFormed(t.b0, p + [false], n) && WellFormed(t.b1, p + [true], n)
    ensures WellFormed(Shrink(t), p, n)
    ensures Contents(Shrink(t)) == Contents(t)
    ensures WellFormed(t, p, n) ==> Shrink(t) == t
  {
    assert forall b: bool, i :: 0 <= i < |p| ==> (p + [b])[i] == p[i];
  }

  /** Remove deletes the key, keeps the trie well formed, and leaves it as it was if the key is absent. */
  lemma {:induction false} RemoveDeletes<D>(t: Trie<D>, d: nat, k: Key)
    requires d <= |k| && WellFormed(t, k[..d], |k|)
    ensures var s := RemoveAt(t, d, k);
      && WellFormed(s, k[..d], |k|)
      && Contents(s) == Contents(t) - {k}
      && (k in Contents(t) ==> s != t)
      && (k !in Contents(t) ==> s == t)
    decreases t
  {
    match t
    case Empty =>
    case Leaf(p, pv) =>
    case Node(_, _) =>
      PathStep(k, d);
      var dir := k[d];
      var s := RemoveAt(t.Branch(dir), d + 1, k);
      RemoveDeletes(t.Branch(dir), d + 1, k);
      JoinRemoves(t, s, k[..d], k);
      InOwnBranch(t, d, k);
      WellFormedShrink(Join(dir, s, t.Branch(!dir)), k[..d], |k|);
  }

  /** Find looks the key up. */
  lemma {:induction false} FindLooksUp<D>(t: Trie<D>, d: nat, k: Key)
    requires d <= |k| && WellFormed(t, k[..d], |k|)
    ensures FindAt(t, d, k).0 == (if k in Contents(t) then Some(Contents(t)[k]) else None)
    decreases t
  {
    if t.Node? {
      PathStep(k, d);
      FindLooksUp(t.Branch(k[d]), d + 1, k);
      BranchContents(t, k[..d], |k|);
    }
  }
}
