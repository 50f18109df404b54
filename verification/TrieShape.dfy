/** The shape of a well-formed trie is a function of the keys it holds. */
module TrieShape {
  import opened Keys
  import opened Tries

  lemma {:induction false} SizeCounts<D>(t: Trie<D>, p: Key, n: nat)
    requires WellFormed(t, p, n)
    ensures Size(t) == |Contents(t).Keys|
  {
    if t.Node? {
      SizeCounts(t.b0, p + [false], n);
      SizeCounts(t.b1, p + [true], n);
      BranchesSplit(t, p, n);
      hide Contents, WellFormed;
      assert |Contents(t.b0).Keys + Contents(t.b1).Keys| == |Contents(t.b0).Keys| + |Contents(t.b1).Keys|;
    }
  }

  lemma BranchesSplit<D>(t: Trie<D>, p: Key, n: nat)
    requires t.Node? && WellFormed(t, p, n)
    ensures Contents(t).Keys == Contents(t.b0).Keys + Contents(t.b1).Keys && Contents(t.b0).Keys !! Contents(t.b1).Keys
  {
    BranchContents(t, p, n);
    assert t.Branch(false) == t.b0 && t.Branch(true) == t.b1;
    hide Contents, WellFormed;
    assert forall k :: k in Contents(t) ==> k in Contents(t.b0) || k in Contents(t.b1);
    assert forall k :: k in Contents(t.Branch(false)) ==> k !in Contents(t.Branch(true));
  }

  lemma {:induction false} NodeHoldsTwo<D>(t: Trie<D>, p: Key, n: nat)
    requires t.Node? && WellFormed(t, p, n)
    ensures Size(t) >= 2
  {
    if t.b0.Node? {
      NodeHoldsTwo(t.b0, p + [false], n);
    } else if t.b1.Node? {
      NodeHoldsTwo(t.b1, p + [true], n);
    }
  }

  /** Equal: same shape, same keys; the data is not compared. */
  predicate Equal<D, E>(a: Trie<D>, b: Trie<E>) {
    match (a, b)
    case (Empty, Empty) => true
    case (Leaf(k, _), Leaf(l, _)) => k == l
    case (Node(a0, a1), Node(b0, b1)) => Equal(a0, b0) && Equal(a1, b1)
    case _ => false
  }

  lemma BranchKeys<D>(t: Trie<D>, p: Key, n: nat, b: bool)
    requires t.Node? && WellFormed(t, p, n)
    ensures forall k :: k in Contents(t).Keys ==> |p| < |k|
    ensures Contents(t.Branch(b)).Keys == set k | k in Contents(t).Keys && k[|p|] == b
  {
    BranchContents(t, p, n);
  }

  /** Two tries whose leaves or nodes differ in kind hold a different number of keys. */
  lemma SameSizeSameKind<D, E>(a: Trie<D>, b: Trie<E>, p: Key, n: nat)
    requires WellFormed(a, p, n) && WellFormed(b, p, n)
    requires Size(a) == Size(b)
    ensures (a.Empty? <==> b.Empty?) && (a.Leaf? <==> b.Leaf?)
  {
    if a.Node? { NodeHoldsTwo(a, p, n); }
    if b.Node? { NodeHoldsTwo(b, p, n); }
  }

  /** Equal decides whether two well-formed tries hold the same keys. */
  lemma {:induction false} EqualIffSameKeys<D, E>(a: Trie<D>, b: Trie<E>, p: Key, n: nat)
    requires WellFormed(a, p, n) && WellFormed(b, p, n)
    ensures Equal(a, b) <==> Contents(a).Keys == Contents(b).Keys
  {
    SizeCounts(a, p, n);
    SizeCounts(b, p, n);
    if Size(a) == Size(b) {
      SameSizeSameKind(a, b, p, n);
    }
    if a.Node? && b.Node? {
      EqualIffSameKeys(a.b0, b.b0, p + [false], n);
      EqualIffSameKeys(a.b1, b.b1, p + [true], n);
      BranchKeys(a, p, n, false);
      BranchKeys(b, p, n, false);
      BranchKeys(a, p, n, true);
      BranchKeys(b, p, n, true);
      assert Contents(a).Keys == Contents(a.b0).Keys + Contents(a.b1).Keys;
      assert Contents(b).Keys == Contents(b.b0).Keys + Contents(b.b1).Keys;
    } else if a.Leaf? && b.Leaf? {
      assert a.key in Contents(a).Keys;
    }
  }

  /** Equal tries that agree on their data are the same trie. */
  lemma {:induction false} EqualSameData<D>(a: Trie<D>, b: Trie<D>, p: Key, n: nat)
    requires WellFormed(a, p, n) && WellFormed(b, p, n)
    requires Equal(a, b)
    requires forall k :: k in Contents(a) && k in Contents(b) ==> Contents(a)[k] == Contents(b)[k]
    ensures a == b
  {
    match a
    case Empty =>
    case Leaf(k, _) =>
      assert k in Contents(a) && k in Contents(b);
    case Node(_, _) =>
      BranchContents(a, p, n);
      BranchContents(b, p, n);
      assert a.b0 == a.Branch(false) && a.b1 == a.Branch(true);
      assert b.b0 == b.Branch(false) && b.b1 == b.Branch(true);
      EqualSameData(a.b0, b.b0, p + [false], n);
      EqualSameData(a.b1, b.b1, p + [true], n);
  }

  /** Canonicity: a well-formed trie is determined by its contents. */
  lemma Canonical<D>(a: Trie<D>, b: Trie<D>, n: nat)
    requires WellFormed(a, [], n) && WellFormed(b, [], n)
    requires Contents(a) == Contents(b)
    ensures a == b
  {
    EqualIffSameKeys(a, b, [], n);
    EqualSameData(a, b, [], n);
  }

  // ---------- runs of updates ----------

  datatype Update<D> = Add(key: Key, data: D) | Remove(key: Key)

  ghost predicate UpdatesOn<D>(us: seq<Update<D>>, n: nat) {
    forall i :: 0 <= i < |us| ==> |us[i].key| == n
  }

  ghost predicate Rooted<D>(t: Trie<D>, n: nat) {
    WellFormed(t, [], n)
  }

  function Step<D>(t: Trie<D>, u: Update<D>): Trie<D>
    requires Rooted(t, |u.key|)
  {
    assert u.key[..0] == [];
    match u
    case Add(k, v) => AddAt(t, 0, k, v)
    case Remove(k) => RemoveAt(t, 0, k)
  }

  function MapStep<D>(m: map<Key, D>, u: Update<D>): map<Key, D> {
    match u
    case Add(k, v) => Insert(m, k, v)
    case Remove(k) => m - {k}
  }

  ghost function MapRun<D>(m: map<Key, D>, us: seq<Update<D>>): map<Key, D>
    decreases |us|
  {
    if us == [] then m else MapRun(MapStep(m, us[0]), us[1..])
  }

  lemma StepRefines<D>(t: Trie<D>, u: Update<D>)
    requires Rooted(t, |u.key|)
    ensures Rooted(Step(t, u), |u.key|) && Contents(Step(t, u)) == MapStep(Contents(t), u)
  {
    assert u.key[..0] == [];
    match u
    case Add(k, v) => AddInserts(t, 0, k, v);
    case Remove(k) => RemoveDeletes(t, 0, k);
  }

  ghost function Run<D>(t: Trie<D>, us: seq<Update<D>>, n: nat): (r: Trie<D>)
    requires Rooted(t, n) && UpdatesOn(us, n)
    ensures Rooted(r, n) && Contents(r) == MapRun(Contents(t), us)
    decreases |us|
  {
    if us == [] then t else
    assert |us[0].key| == n;
    StepRefines(t, us[0]);
    assert UpdatesOn(us[1..], n) by { assert forall i :: 0 <= i < |us| - 1 ==> us[1..][i] == us[i + 1]; }
    Run(Step(t, us[0]), us[1..], n)
  }

  /** However the same contents were reached, the trie is the same. */
  lemma OrderIsIrrelevant<D>(us: seq<Update<D>>, vs: seq<Update<D>>, n: nat)
    requires UpdatesOn(us, n) && UpdatesOn(vs, n)
    requires MapRun(map[], us) == MapRun(map[], vs)
    ensures Run(Empty, us, n) == Run(Empty, vs, n)
  {
    Canonical(Run(Empty, us, n), Run(Empty, vs, n), n);
  }

  // ---------- depths ----------

  /** The stored keys that share at least d leading bits with k. */
  ghost function Sharing(keys: set<Key>, k: Key, d: nat): set<Key> {
    set x | x in keys && |x| == |k| && Cpl(x, k) >= d
  }

  /** Stored keys sharing more than d bits with k are all in the branch k leads to. */
  lemma SharingBelow<D>(t: Trie<D>, d: nat, k: Key, j: nat)
    requires d < |k| && t.Node? && WellFormed(t, k[..d], |k|) && d < j
    ensures Sharing(Contents(t).Keys, k, j) == Sharing(Contents(t.Branch(k[d])).Keys, k, j)
  {
    BranchContents(t, k[..d], |k|);
    forall x | x in Contents(t) && Cpl(x, k) >= j ensures x[d] == k[d] {
      CplFacts(x, k);
    }
  }

  /** From d on, e is the first depth at which at most one key of keys still agrees with k. */
  ghost predicate FirstUnshared(keys: set<Key>, k: Key, d: nat, e: nat) {
    && d <= e <= |k|
    && |Sharing(keys, k, e)| <= 1
    && forall j :: d <= j < e ==> |Sharing(keys, k, j)| >= 2
  }

  lemma FirstUnsharedBelow(keys: set<Key>, own: set<Key>, k: Key, d: nat, e: nat)
    requires FirstUnshared(own, k, d + 1, e)
    requires |Sharing(keys, k, d)| >= 2
    requires forall j :: d < j ==> Sharing(keys, k, j) == Sharing(own, k, j)
    ensures FirstUnshared(keys, k, d, e)
  {
  }

  lemma {:induction false} DepthReached<D>(t: Trie<D>, d: nat, k: Key)
    requires d <= |k| && WellFormed(t, k[..d], |k|)
    ensures FirstUnshared(Contents(t).Keys, k, d, FindAt(t, d, k).1)
    decreases t
  {
    SizeCounts(t, k[..d], |k|);
    AllShare(t, d, k);
    if t.Node? {
      PathStep(k, d);
      var own := t.Branch(k[d]);
      DepthReached(own, d + 1, k);
      NodeHoldsTwo(t, k[..d], |k|);
      forall j | d < j ensures Sharing(Contents(t).Keys, k, j) == Sharing(Contents(own).Keys, k, j) {
        SharingBelow(t, d, k, j);
      }
      FirstUnsharedBelow(Contents(t).Keys, Contents(own).Keys, k, d, FindAt(own, d + 1, k).1);
    }
  }

  lemma AllShare<D>(t: Trie<D>, d: nat, k: Key)
    requires d <= |k| && WellFormed(t, k[..d], |k|)
    ensures Sharing(Contents(t).Keys, k, d) == Contents(t).Keys
  {
    ContentsOnPath(t, k[..d], |k|);
    forall x | x in Contents(t) ensures |x| == |k| && Cpl(x, k) >= d {
      AgreeOnPath(x, k, d);
    }
  }

  /** Locate on any key of the right length: the depth reached is the least number of leading bits
      of k that at most one stored key shares. */
  lemma LocateDepth<D>(t: Trie<D>, k: Key)
    requires Rooted(t, |k|)
    ensures k[..0] == []
    ensures FirstUnshared(Contents(t).Keys, k, 0, FindAt(t, 0, k).1)
  {
    assert k[..0] == [];
    DepthReached(t, 0, k);
  }

  lemma OneOrOther<T>(s: set<T>, x: T)
    requires x in s
    ensures |s| >= 2 ==> exists y :: y in s && y != x
    ensures |s| <= 1 ==> s == {x}
  {
    assert s == {x} + (s - {x});
    if |s| >= 2 {
      var y :| y in s - {x};
    }
  }

  /** A stored key sits at depth 0 if it is alone, and otherwise one below its longest common prefix
      with another stored key. */
  lemma StoredKeyDepth<D>(t: Trie<D>, k: Key)
    requires Rooted(t, |k|) && k in Contents(t)
    ensures k[..0] == []
    ensures var e := FindAt(t, 0, k).1;
      && (e == 0 <==> Contents(t).Keys == {k})
      && (forall x :: x in Contents(t) && x != k ==> |x| == |k| && Cpl(x, k) < e)
      && (e > 0 ==> exists x :: x in Contents(t) && x != k && |x| == |k| && Cpl(x, k) == e - 1)
  {
    LocateDepth(t, k);
    ContentsOnPath(t, [], |k|);
    CplFacts(k, k);
    var keys, e := Contents(t).Keys, FindAt(t, 0, k).1;
    OneOrOther(Sharing(keys, k, e), k);
    forall x | x in keys && x != k ensures Cpl(x, k) < e {
      assert x !in Sharing(keys, k, e);
    }
    if e > 0 {
      OneOrOther(Sharing(keys, k, e - 1), k);
      var y :| y in Sharing(keys, k, e - 1) && y != k;
      assert Cpl(y, k) == e - 1;
    } else {
      assert Sharing(keys, k, 0) == keys;
    }
  }
}
