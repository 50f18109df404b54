/** The pruned searches of the trie: nearest keys, and counting the keys of one common prefix length. */
module TrieSearch {
  import opened Keys
  import opened Nearest
  import opened Tries
  import opened TrieShape

  datatype Entry<D> = Entry(key: Key, data: D)

  function Height<D>(t: Trie<D>): nat {
    match t
    case Node(b0, b1) => 1 + if Height(b0) > Height(b1) then Height(b0) else Height(b1)
    case _ => 0
  }

  lemma {:induction false} HeightBound<D>(t: Trie<D>, p: Key, n: nat)
    requires WellFormed(t, p, n)
    ensures |p| + Height(t) <= n
  {
    if t.Node? {
      HeightBound(t.b0, p + [false], n);
      HeightBound(t.b1, p + [true], n);
    }
  }

  /** Collect entries towards target first, and turn to the far branch only if more are wanted.
      The number wanted is an int: a caller may pass any. */
  function ClosestAt<D>(t: Trie<D>, target: Key, n: int, d: nat): seq<Entry<D>>
    requires d + Height(t) <= |target|
    decreases t
  {
    match t
    case Empty => []
    case Leaf(k, v) => [Entry(k, v)]
    case Node(_, _) =>
      var found := ClosestAt(t.Branch(target[d]), target, n, d + 1);
      if |found| == n then found
      else found + ClosestAt(t.Branch(!target[d]), target, n - |found|, d + 1)
  }

  lemma ClosestAtNode<D>(t: Trie<D>, target: Key, n: int, d: nat)
    requires t.Node? && d + Height(t) <= |target|
    ensures var found := ClosestAt(t.Branch(target[d]), target, n, d + 1);
      ClosestAt(t, target, n, d) ==
        if |found| == n then found
        else found + ClosestAt(t.Branch(!target[d]), target, n - |found|, d + 1)
  {
  }

  function EntryKeys<D>(es: seq<Entry<D>>): (ks: seq<Key>)
    ensures |ks| == |es| && forall i :: 0 <= i < |es| ==> ks[i] == es[i].key
  {
    seq(|es|, i requires 0 <= i < |es| => es[i].key)
  }

  ghost predicate HoldsEntries<D>(m: map<Key, D>, es: seq<Entry<D>>) {
    forall i :: 0 <= i < |es| ==> es[i].key in m && m[es[i].key] == es[i].data
  }

  /** Keys on target's side of a node are nearer to target than keys on the other side. */
  lemma NearSideIsNearer(target: Key, p: Key, a: Key, b: Key)
    requires |target| == |a| == |b| && |p| < |a|
    requires HasPrefix(a, p) && HasPrefix(b, p)
    requires a[|p|] == target[|p|] != b[|p|]
    ensures Nearer(target, a, b)
  {
    CplIs(a, b, |p|);
  }

  /** If everything near is nearer than everything far, the ranking of both lists near before far. */
  lemma RankedUnion(near: set<Key>, far: set<Key>, t: Key)
    requires SameLength(near, t) && SameLength(far, t)
    requires forall x, y :: x in near && y in far ==> Nearer(t, x, y)
    ensures SameLength(near + far, t) && Ranked(near + far, t) == Ranked(near, t) + Ranked(far, t)
  {
    var a, b := Ranked(near, t), Ranked(far, t);
    var c := a + b;
    forall i, j | 0 <= i < j < |c| ensures Nearer(t, c[i], c[j]) {
      if i < |a| <= j { assert c[i] in near && c[j] in far; }
    }
    RankingUnique(Ranked(near + far, t), c, near + far, t);
  }

  /** The two sides of a node as the search sees them. */
  lemma Sides<D>(t: Trie<D>, p: Key, target: Key)
    requires t.Node? && WellFormed(t, p, |target|)
    ensures |p| < |target|
    ensures var near, far := Contents(t.Branch(target[|p|])).Keys, Contents(t.Branch(!target[|p|])).Keys;
      && SameLength(near, target) && SameLength(far, target) && near !! far
      && Contents(t).Keys == near + far
      && forall x, y :: x in near && y in far ==> Nearer(target, x, y)
  {
    BranchContents(t, p, |target|);
    var near, far := Contents(t.Branch(target[|p|])).Keys, Contents(t.Branch(!target[|p|])).Keys;
    assert Contents(t).Keys == near + far;
    forall x, y | x in near && y in far ensures Nearer(target, x, y) {
      NearSideIsNearer(target, p, x, y);
    }
  }

  /** Whatever is returned is stored, with the data it is stored with. */
  lemma {:induction false} ClosestHolds<D>(t: Trie<D>, p: Key, target: Key, n: int)
    requires WellFormed(t, p, |target|)
    ensures |p| + Height(t) <= |target|
    ensures HoldsEntries(Contents(t), ClosestAt(t, target, n, |p|))
    decreases t
  {
    HeightBound(t, p, |target|);
    if t.Node? {
      var dir := target[|p|];
      var found := ClosestAt(t.Branch(dir), target, n, |p| + 1);
      ClosestHolds(t.Branch(dir), p + [dir], target, n);
      ClosestHolds(t.Branch(!dir), p + [!dir], target, n - |found|);
      var rest := ClosestAt(t.Branch(!dir), target, n - |found|, |p| + 1);
      HoldsUp(t, p, |target|, dir, found);
      HoldsUp(t, p, |target|, !dir, rest);
      HoldsBoth(Contents(t), found, rest);
      hide Contents, HoldsEntries, WellFormed;
    }
  }

  lemma HoldsUp<D>(t: Trie<D>, p: Key, n: nat, b: bool, es: seq<Entry<D>>)
    requires t.Node? && WellFormed(t, p, n) && HoldsEntries(Contents(t.Branch(b)), es)
    ensures HoldsEntries(Contents(t), es)
  {
    BranchContents(t, p, n);
    hide Contents, WellFormed;
  }

  lemma HoldsBoth<D>(m: map<Key, D>, a: seq<Entry<D>>, b: seq<Entry<D>>)
    requires HoldsEntries(m, a) && HoldsEntries(m, b)
    ensures HoldsEntries(m, a + b)
  {}

  lemma SmallClosest<D>(t: Trie<D>, p: Key, target: Key, n: int)
    requires n >= 1 && !t.Node? && WellFormed(t, p, |target|)
    ensures Answers(ClosestAt(t, target, n, |p|), t, target, n)
  {
    var keys := Contents(t).Keys;
    var r := EntryKeys(ClosestAt(t, target, n, |p|));
    assert keys == if t.Leaf? then {t.key} else {};
    assert r == if t.Leaf? then [t.key] else [];
    RankingUnique(r, Ranked(keys, target), keys, target);
  }

  /** The two recursive results put together. */
  lemma CombineSides<D>(near: set<Key>, far: set<Key>, t: Key, n: int, found: seq<Entry<D>>, rest: seq<Entry<D>>)
    requires n >= 1 && SameLength(near, t) && SameLength(far, t)
    requires forall x, y :: x in near && y in far ==> Nearer(t, x, y)
    requires EntryKeys(found) == Take(Ranked(near, t), n)
    requires |found| < n ==> EntryKeys(rest) == Take(Ranked(far, t), n - |found|)
    ensures SameLength(near + far, t)
    ensures EntryKeys(if |found| == n then found else found + rest) == Take(Ranked(near + far, t), n)
  {
    RankedUnion(near, far, t);
    hide *;
    EntryKeysConcat(found, rest);
    TakeBoth(Ranked(near, t), Ranked(far, t), n);
    TakeAll(Ranked(near, t), n);
  }

  lemma EntryKeysConcat<D>(a: seq<Entry<D>>, b: seq<Entry<D>>)
    ensures EntryKeys(a + b) == EntryKeys(a) + EntryKeys(b)
  {}

  lemma TakeAll<T>(s: seq<T>, n: int)
    requires n >= 0
    ensures n >= |s| ==> Take(s, n) == s
  {}

  lemma TakeBoth<T>(a: seq<T>, b: seq<T>, n: int)
    requires n >= 0
    ensures Take(a + b, n) == if n <= |a| then Take(a, n) else a + Take(b, n - |a|)
  {
  }

  /** es is what the search should return for the trie t. */
  ghost predicate Answers<D>(es: seq<Entry<D>>, t: Trie<D>, target: Key, n: int) {
    SameLength(Contents(t).Keys, target) && n >= 1 && EntryKeys(es) == Take(Ranked(Contents(t).Keys, target), n)
  }

  lemma AnswersNode<D>(t: Trie<D>, p: Key, target: Key, n: int, found: seq<Entry<D>>, rest: seq<Entry<D>>)
    requires t.Node? && n >= 1 && WellFormed(t, p, |target|)
    requires Answers(found, t.Branch(target[|p|]), target, n)
    requires |found| < n ==> Answers(rest, t.Branch(!target[|p|]), target, n - |found|)
    ensures Answers(if |found| == n then found else found + rest, t, target, n)
  {
    Sides(t, p, target);
    CombineSides(Contents(t.Branch(target[|p|])).Keys, Contents(t.Branch(!target[|p|])).Keys, target, n, found, rest);
  }

  /** For n >= 1 the search returns the first n keys of the ranking. */
  lemma {:induction false} ClosestAnswers<D>(t: Trie<D>, p: Key, target: Key, n: int)
    requires n >= 1 && WellFormed(t, p, |target|)
    requires |p| + Height(t) <= |target|
    ensures Answers(ClosestAt(t, target, n, |p|), t, target, n)
    decreases t
  {
    hide Answers;
    if !t.Node? {
      SmallClosest(t, p, target, n);
    } else {
      var dir := target[|p|];
      ClosestAnswers(t.Branch(dir), p + [dir], target, n);
      var found := ClosestAt(t.Branch(dir), target, n, |p| + 1);
      var rest := ClosestAt(t.Branch(!dir), target, n - |found|, |p| + 1);
      if |found| < n {
        ClosestAnswers(t.Branch(!dir), p + [!dir], target, n - |found|);
      }
      AnswersNode(t, p, target, n, found, rest);
      ClosestAtNode(t, target, n, |p|);
    }
  }

  /** For n >= 1 the search returns exactly the n nearest stored keys, nearest first. */
  lemma ClosestIsNearest<D>(t: Trie<D>, target: Key, n: int)
    requires n >= 1 && Rooted(t, |target|)
    ensures Height(t) <= |target| && SameLength(Contents(t).Keys, target)
    ensures IsNearest(EntryKeys(ClosestAt(t, target, n, 0)), Contents(t).Keys, target, n)
  {
    HeightBound(t, [], |target|);
    ClosestAnswers(t, [], target, n);
    RankingPrefix(Ranked(Contents(t).Keys, target), Contents(t).Keys, target, n);
  }

  /** The leaf that target's own bits lead to is empty. */
  predicate EmptyOnPath<D>(t: Trie<D>, target: Key, d: nat)
    requires d + Height(t) <= |target|
  {
    match t
    case Empty => true
    case Leaf(_, _) => false
    case Node(_, _) => EmptyOnPath(t.Branch(target[d]), target, d + 1)
  }

  lemma {:induction false} ClosestZero<D>(t: Trie<D>, target: Key, d: nat)
    requires d + Height(t) <= |target|
    ensures ClosestAt(t, target, 0, d) == [] <==> EmptyOnPath(t, target, d)
    decreases t
  {
    if t.Node? {
      ClosestZero(t.Branch(target[d]), target, d + 1);
    }
  }

  /** es lists every entry of t, nearest first. */
  ghost predicate ListsAll<D>(es: seq<Entry<D>>, t: Trie<D>, target: Key) {
    SameLength(Contents(t).Keys, target) && EntryKeys(es) == Ranked(Contents(t).Keys, target)
  }

  lemma ListsAllSmall<D>(t: Trie<D>, p: Key, target: Key, n: int)
    requires !t.Node? && WellFormed(t, p, |target|)
    ensures ListsAll(ClosestAt(t, target, n, |p|), t, target)
  {
    var keys := Contents(t).Keys;
    assert keys == if t.Leaf? then {t.key} else {};
    RankingUnique(if t.Leaf? then [t.key] else [], Ranked(keys, target), keys, target);
  }

  lemma ListsAllNode<D>(t: Trie<D>, p: Key, target: Key, found: seq<Entry<D>>, rest: seq<Entry<D>>)
    requires t.Node? && WellFormed(t, p, |target|)
    requires ListsAll(found, t.Branch(target[|p|]), target) && ListsAll(rest, t.Branch(!target[|p|]), target)
    ensures ListsAll(found + rest, t, target)
  {
    Sides(t, p, target);
    hide Contents, WellFormed;
    RankedUnion(Contents(t.Branch(target[|p|])).Keys, Contents(t.Branch(!target[|p|])).Keys, target);
    EntryKeysConcat(found, rest);
  }

  /** A negative count is no limit at all: all entries are returned, nearest first. */
  lemma {:induction false} ClosestNegative<D>(t: Trie<D>, p: Key, target: Key, n: int)
    requires n < 0 && WellFormed(t, p, |target|)
    ensures |p| + Height(t) <= |target|
    ensures ListsAll(ClosestAt(t, target, n, |p|), t, target)
    decreases t
  {
    hide ListsAll;
    HeightBound(t, p, |target|);
    if !t.Node? {
      ListsAllSmall(t, p, target, n);
    } else {
      var dir := target[|p|];
      ClosestNegative(t.Branch(dir), p + [dir], target, n);
      var found := ClosestAt(t.Branch(dir), target, n, |p| + 1);
      ClosestNegative(t.Branch(!dir), p + [!dir], target, n - |found|);
      var rest := ClosestAt(t.Branch(!dir), target, n - |found|, |p| + 1);
      ClosestAtNode(t, target, n, |p|);
      ListsAllNode(t, p, target, found, rest);
    }
  }

  /** Exactly when Closest is right, for every count: always from n = 1 up; for n = 0 when target's own
      path ends in an empty leaf; below that only on an empty trie. */
  lemma ClosestRightIff<D>(t: Trie<D>, target: Key, n: int)
    requires Rooted(t, |target|)
    ensures Height(t) <= |target| && SameLength(Contents(t).Keys, target)
    ensures IsNearest(EntryKeys(ClosestAt(t, target, n, 0)), Contents(t).Keys, target, n)
      <==> n >= 1 || (n == 0 && EmptyOnPath(t, target, 0)) || t.Empty?
  {
    HeightBound(t, [], |target|);
    ContentsOnPath(t, [], |target|);
    SizeCounts(t, [], |target|);
    if t.Node? { NodeHoldsTwo(t, [], |target|); }
    if n >= 1 {
      ClosestIsNearest(t, target, n);
    } else if n == 0 {
      ClosestZero(t, target, 0);
    } else {
      ClosestNegative(t, [], target, n);
    }
  }

  /** A trie of one key, asked for no keys at all, returns that key. */
  lemma NoneWantedOneFound<D>(k: Key, v: D, target: Key)
    requires |k| == |target|
    ensures Rooted(Leaf(k, v), |target|) && SameLength(Contents(Leaf(k, v)).Keys, target)
    ensures ClosestAt(Leaf(k, v), target, 0, 0) == [Entry(k, v)]
    ensures !IsNearest([k], Contents(Leaf(k, v)).Keys, target, 0)
  {
    assert Contents(Leaf(k, v)).Keys == {k};
  }

  // ---------- counting one common prefix length ----------

  function CountCpl<D>(t: Trie<D>, kk: Key, cpl: int, d: nat): nat
    requires d <= |kk| && WellFormed(t, kk[..d], |kk|)
    decreases t
  {
    match t
    case Empty => 0
    case Leaf(k, _) => if Cpl(kk, k) == cpl then 1 else 0
    case Node(_, _) =>
      if d == cpl then Size(t.Branch(!kk[d])) else
      PathStep(kk, d);
      CountCpl(t.Branch(kk[d]), kk, cpl, d + 1)
  }

  ghost function CplClass(keys: set<Key>, kk: Key, cpl: int): set<Key> {
    set k | k in keys && |k| == |kk| && Cpl(kk, k) == cpl
  }

  lemma NodeCplClass<D>(t: Trie<D>, d: nat, kk: Key, cpl: int)
    requires d < |kk| && t.Node? && WellFormed(t, kk[..d], |kk|) && d <= cpl
    ensures CplClass(Contents(t).Keys, kk, cpl) ==
      if cpl == d then Contents(t.Branch(!kk[d])).Keys
      else CplClass(Contents(t.Branch(kk[d])).Keys, kk, cpl)
  {
    BranchContents(t, kk[..d], |kk|);
    forall k | k in Contents(t) ensures |k| == |kk| && Cpl(kk, k) >= d && (Cpl(kk, k) == d <==> k[d] != kk[d]) {
      AgreeOnPath(k, kk, d);
      CplSymmetric(k, kk);
      CplFacts(kk, k);
    }
  }

  /** The count, made without visiting every key, is the size of the class. */
  lemma {:induction false} CountCplCounts<D>(t: Trie<D>, kk: Key, cpl: int, d: nat)
    requires d <= |kk| && WellFormed(t, kk[..d], |kk|) && d <= cpl
    ensures CountCpl(t, kk, cpl, d) == |CplClass(Contents(t).Keys, kk, cpl)|
    decreases t
  {
    match t
    case Empty =>
      assert CplClass(Contents(t).Keys, kk, cpl) == {};
    case Leaf(k, v) =>
      assert CplClass(Contents(t).Keys, kk, cpl) == if Cpl(kk, k) == cpl then {k} else {};
    case Node(_, _) =>
      NodeCplClass(t, d, kk, cpl);
      PathStep(kk, d);
      if cpl == d {
        SizeCounts(t.Branch(!kk[d]), kk[..d] + [!kk[d]], |kk|);
      } else {
        CountCplCounts(t.Branch(kk[d]), kk, cpl, d + 1);
      }
  }
}
