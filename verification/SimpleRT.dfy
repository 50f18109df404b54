/** The bucket list: bucket i below the last holds keys sharing exactly i bits with self, the last one
    holds the rest and is split when it fills up. */
module SimpleTable {
  import opened Keys
  import opened Options
  import opened Nearest
  import opened TrieSearch
  import opened Tables

  datatype PeerInfo<N> = PeerInfo(id: N, kadId: Key)

  // ---------- lists of peers ----------

  ghost predicate DistinctKeys<N>(b: seq<PeerInfo<N>>) {
    forall i, j :: 0 <= i < j < |b| ==> b[i].kadId != b[j].kadId
  }

  ghost function KeySeq<N>(b: seq<PeerInfo<N>>): (r: seq<Key>)
    ensures |r| == |b| && forall i :: 0 <= i < |b| ==> r[i] == b[i].kadId
  {
    seq(|b|, i requires 0 <= i < |b| => b[i].kadId)
  }

  ghost function KeySet<N>(b: seq<PeerInfo<N>>): set<Key> {
    set p | p in b :: p.kadId
  }

  /** Every peer of b is stored in m. */
  ghost predicate StoredIn<N>(b: seq<PeerInfo<N>>, m: map<Key, N>) {
    forall p :: p in b ==> p.kadId in m && m[p.kadId] == p.id
  }

  lemma KeySetSize<N>(b: seq<PeerInfo<N>>)
    requires DistinctKeys(b)
    ensures |KeySet(b)| == |b|
  {
    DistinctCount(KeySeq(b));
    assert KeySet(b) == set k | k in KeySeq(b);
  }

  predicate CplIsC<N>(p: PeerInfo<N>, self: Key, c: nat)
    requires |p.kadId| == |self|
  {
    Cpl(p.kadId, self) == c
  }

  /** The peers of b whose common prefix with self is (far) or is not (close) exactly c bits. */
  function Part<N(!new)>(b: seq<PeerInfo<N>>, self: Key, c: nat, far: bool): (r: seq<PeerInfo<N>>)
    requires forall p :: p in b ==> |p.kadId| == |self|
    ensures forall p :: p in r <==> p in b && CplIsC(p, self, c) == far
  {
    if b == [] then [] else
    var n := |b| - 1;
    assert b == b[..n] + [b[n]];
    Part(b[..n], self, c, far) + if CplIsC(b[n], self, c) == far then [b[n]] else []
  }

  lemma PartAppend<N(!new)>(b: seq<PeerInfo<N>>, p: PeerInfo<N>, self: Key, c: nat, far: bool)
    requires forall q :: q in b + [p] ==> |q.kadId| == |self|
    requires forall q :: q in b ==> |q.kadId| == |self|
    requires |p.kadId| == |self|
    ensures Part(b + [p], self, c, far) == Part(b, self, c, far) + if CplIsC(p, self, c) == far then [p] else []
  {
    assert (b + [p])[..|b|] == b;
  }

  lemma {:induction false} PartDistinct<N(!new)>(b: seq<PeerInfo<N>>, self: Key, c: nat, far: bool)
    requires forall p :: p in b ==> |p.kadId| == |self|
    requires DistinctKeys(b)
    ensures DistinctKeys(Part(b, self, c, far))
  {
    if b != [] {
      var n := |b| - 1;
      assert b == b[..n] + [b[n]];
      PartDistinct(b[..n], self, c, far);
      var r := Part(b[..n], self, c, far);
      forall i | 0 <= i < |r| ensures r[i].kadId != b[n].kadId {
        assert r[i] in b[..n];
      }
    }
  }

  lemma {:induction false} PartSizes<N(!new)>(b: seq<PeerInfo<N>>, self: Key, c: nat)
    requires forall p :: p in b ==> |p.kadId| == |self|
    ensures |Part(b, self, c, true)| + |Part(b, self, c, false)| == |b|
  {
    if b != [] {
      PartSizes(b[..|b| - 1], self, c);
    }
  }

  // ---------- the stable sort by distance ----------

  ghost predicate Lengths<N>(b: seq<PeerInfo<N>>, t: Key) {
    forall i :: 0 <= i < |b| ==> |b[i].kadId| == |t|
  }

  function InsertPeer<N>(p: PeerInfo<N>, s: seq<PeerInfo<N>>, t: Key): (r: seq<PeerInfo<N>>)
    requires |p.kadId| == |t| && Lengths(s, t)
    ensures multiset(r) == multiset([p]) + multiset(s) && Lengths(r, t)
  {
    if s == [] || Compare(Xor(s[0].kadId, t), Xor(p.kadId, t)) >= 0 then [p] + s
    else
      assert s == [s[0]] + s[1..];
      [s[0]] + InsertPeer(p, s[1..], t)
  }

  /** Sort by XOR distance to t; equals keep their order. */
  function StableSort<N>(s: seq<PeerInfo<N>>, t: Key): (r: seq<PeerInfo<N>>)
    requires Lengths(s, t)
    ensures multiset(r) == multiset(s) && Lengths(r, t)
  {
    if s == [] then [] else
    assert s == [s[0]] + s[1..];
    InsertPeer(s[0], StableSort(s[1..], t), t)
  }

  lemma {:induction false} InsertPeerIncreasing<N>(p: PeerInfo<N>, s: seq<PeerInfo<N>>, t: Key)
    requires |p.kadId| == |t| && Lengths(s, t)
    requires Increasing(t, KeySeq(s)) && p.kadId !in KeySeq(s)
    ensures KeySeq(InsertPeer(p, s, t)) == InsertKey(p.kadId, KeySeq(s), t)
    decreases |s|
  {
    if s != [] {
      NearerIsXorOrder(t, s[0].kadId, p.kadId);
      NearerTotal(t, s[0].kadId, p.kadId);
      hide Nearer, Compare, Cpl, Xor;
      assert KeySeq(s)[0] == s[0].kadId;
      assert KeySeq(s)[1..] == KeySeq(s[1..]);
      InsertPeerIncreasing(p, s[1..], t);
    }
  }

  lemma KeySetFits<N>(s: seq<PeerInfo<N>>, t: Key)
    requires Lengths(s, t)
    ensures SameLength(KeySet(s), t)
  {}

  lemma KeySetNil<N>(s: seq<PeerInfo<N>>)
    requires s == []
    ensures KeySet(s) == {}
  {}

  lemma KeySetHead<N>(s: seq<PeerInfo<N>>)
    requires s != []
    ensures KeySet(s) == KeySet(s[1..]) + {s[0].kadId}
    ensures DistinctKeys(s) ==> DistinctKeys(s[1..]) && s[0].kadId !in KeySet(s[1..])
  {
    assert s == [s[0]] + s[1..];
  }

  /** Peers with different keys come out in the one ranking of their keys. */
  lemma {:induction false} SortRanks<N>(s: seq<PeerInfo<N>>, t: Key)
    requires Lengths(s, t) && DistinctKeys(s)
    ensures SameLength(KeySet(s), t)
    ensures KeySeq(StableSort(s, t)) == Ranked(KeySet(s), t)
    decreases |s|
  {
    hide KeySet, DistinctKeys, Compare, Nearer;
    assert SameLength(KeySet(s), t) by {
      KeySetFits(s, t);
    }
    var r := KeySeq(StableSort(s, t));
    if s != [] {
      KeySetHead(s);
      SortRanks(s[1..], t);
      var k, rest := s[0].kadId, KeySeq(StableSort(s[1..], t));
      InsertPeerIncreasing(s[0], StableSort(s[1..], t), t);
      InsertKeyRanks(k, rest, KeySet(s[1..]), t);
    } else {
      KeySetNil(s);
    }
    RankingUnique(r, Ranked(KeySet(s), t), KeySet(s), t);
  }

  // ---------- the invariant of the bucket list ----------

  function BucketOf(self: Key, count: nat, k: Key): (r: nat)
    requires |k| == |self| && count >= 1
    ensures r < count
  {
    if Cpl(self, k) >= count then count - 1 else Cpl(self, k)
  }

  ghost predicate InPlace<N(!new)>(p: PeerInfo<N>, i: nat, count: nat, self: Key, table: map<Key, N>)
    requires count >= 1
  {
    |p.kadId| == |self| && BucketOf(self, count, p.kadId) == i && p.kadId in table && table[p.kadId] == p.id
  }

  ghost predicate Held<N(!new)>(k: Key, b: seq<PeerInfo<N>>) {
    exists p :: p in b && p.kadId == k
  }

  /** The buckets hold exactly the table's nodes, each in its place, none twice, none beyond its size. */
  ghost predicate Inv<N(!new)>(buckets: seq<seq<PeerInfo<N>>>, self: Key, size: nat, table: map<Key, N>) {
    && 1 <= |buckets|
    && (forall i, p :: 0 <= i < |buckets| && p in buckets[i] ==> InPlace(p, i, |buckets|, self, table))
    && (forall i :: 0 <= i < |buckets| ==> DistinctKeys(buckets[i]) && |buckets[i]| <= size)
    && (forall k :: k in table ==> |k| == |self| && Held(k, buckets[BucketOf(self, |buckets|, k)]))
  }

  lemma BucketBounds<N(!new)>(buckets: seq<seq<PeerInfo<N>>>, self: Key, size: nat, table: map<Key, N>)
    requires Inv(buckets, self, size, table)
    ensures 1 <= |buckets|
    ensures forall i :: 0 <= i < |buckets| ==> |buckets[i]| <= size
  {
  }

  lemma AddToBucket<N(!new)>(buckets: seq<seq<PeerInfo<N>>>, self: Key, size: nat, table: map<Key, N>, p: PeerInfo<N>)
    requires Inv(buckets, self, size, table) && |p.kadId| == |self| && p.kadId !in table
    requires |buckets[BucketOf(self, |buckets|, p.kadId)]| < size
    ensures var b := BucketOf(self, |buckets|, p.kadId);
      Inv(buckets[b := buckets[b] + [p]], self, size, table[p.kadId := p.id])
  {
    hide Cpl;
    var b := BucketOf(self, |buckets|, p.kadId);
    var grown := buckets[b] + [p];
    var nb, nt := buckets[b := grown], table[p.kadId := p.id];
    forall i: nat, q | i < |nb| && q in nb[i] ensures InPlace(q, i, |nb|, self, nt) {
      assert q == p || (q in buckets[i] && InPlace(q, i, |buckets|, self, table));
    }
    forall i | 0 <= i < |grown| - 1 ensures grown[i].kadId != p.kadId {
      assert InPlace(buckets[b][i], b, |buckets|, self, table);
    }
    forall k | k in nt ensures Held(k, nb[BucketOf(self, |nb|, k)]) {
      if k == p.kadId {
        assert p in grown;
      } else {
        var q :| q in buckets[BucketOf(self, |buckets|, k)] && q.kadId == k;
        assert q in nb[BucketOf(self, |nb|, k)];
      }
    }
  }

  lemma SplitPlaces<N(!new)>(p: PeerInfo<N>, self: Key, count: nat, table: map<Key, N>)
    requires count >= 1 && InPlace(p, count - 1, count, self, table)
    ensures InPlace(p, if CplIsC(p, self, count - 1) then count - 1 else count, count + 1, self, table)
  {
    CplSymmetric(self, p.kadId);
  }

  /** Splitting the last bucket into any far and close parts keeps the invariant. */
  lemma SplitInto<N(!new)>(buckets: seq<seq<PeerInfo<N>>>, self: Key, size: nat, table: map<Key, N>,
                           far: seq<PeerInfo<N>>, close: seq<PeerInfo<N>>)
    requires Inv(buckets, self, size, table)
    requires DistinctKeys(far) && DistinctKeys(close) && |far| + |close| == |buckets[|buckets| - 1]|
    requires forall p :: p in buckets[|buckets| - 1] ==> |p.kadId| == |self|
    requires forall p :: p in far <==> p in buckets[|buckets| - 1] && CplIsC(p, self, |buckets| - 1)
    requires forall p :: p in close <==> p in buckets[|buckets| - 1] && !CplIsC(p, self, |buckets| - 1)
    ensures Inv(buckets[|buckets| - 1 := far] + [close], self, size, table)
  {
    hide Cpl;
    hide DistinctKeys;
    var last := |buckets| - 1;
    var nb := buckets[last := far] + [close];
    assert forall i :: 0 <= i < last ==> nb[i] == buckets[i];
    assert nb[last] == far && nb[last + 1] == close;
    forall i: nat, p | i < |nb| && p in nb[i] ensures InPlace(p, i, |nb|, self, table) {
      if i < last {
        assert InPlace(p, i, |buckets|, self, table);
      } else {
        assert InPlace(p, last, |buckets|, self, table);
        SplitPlaces(p, self, |buckets|, table);
      }
    }
    forall k | k in table ensures Held(k, nb[BucketOf(self, |nb|, k)]) {
      var p :| p in buckets[BucketOf(self, |buckets|, k)] && p.kadId == k;
      if BucketOf(self, |buckets|, k) == last {
        SplitPlaces(p, self, |buckets|, table);
      }
      assert p in nb[BucketOf(self, |nb|, k)];
    }
  }

  lemma SplitLast<N(!new)>(buckets: seq<seq<PeerInfo<N>>>, self: Key, size: nat, table: map<Key, N>)
    requires Inv(buckets, self, size, table)
    ensures var last := |buckets| - 1;
      && (forall p :: p in buckets[last] ==> |p.kadId| == |self|)
      && Inv(buckets[last := Part(buckets[last], self, last, true)] + [Part(buckets[last], self, last, false)],
             self, size, table)
  {
    var last := |buckets| - 1;
    var b := buckets[last];
    assert forall p :: p in b ==> InPlace(p, last, |buckets|, self, table);
    PartDistinct(b, self, last, true);
    PartDistinct(b, self, last, false);
    PartSizes(b, self, last);
    SplitInto(buckets, self, size, table, Part(b, self, last, true), Part(b, self, last, false));
  }

  /** Overwrite position i with the last peer and drop the last position. */
  function SwapRemove<N>(b: seq<PeerInfo<N>>, i: nat): (r: seq<PeerInfo<N>>)
    requires i < |b|
  {
    b[i := b[|b| - 1]][..|b| - 1]
  }

  lemma SwapRemoveDrops<N(!new)>(b: seq<PeerInfo<N>>, i: nat)
    requires i < |b| && DistinctKeys(b)
    ensures DistinctKeys(SwapRemove(b, i)) && |SwapRemove(b, i)| == |b| - 1
    ensures forall q :: q in SwapRemove(b, i) <==> q in b && q.kadId != b[i].kadId
  {
    var n := |b| - 1;
    var r := SwapRemove(b, i);
    forall q | q in r ensures q in b && q.kadId != b[i].kadId {
      var j :| 0 <= j < n && r[j] == q;
    }
    forall q | q in b && q.kadId != b[i].kadId ensures q in r {
      var j :| 0 <= j < |b| && b[j] == q;
      assert r[if j == n then i else j] == q;
    }
  }

  lemma RemoveFromBucket<N(!new)>(buckets: seq<seq<PeerInfo<N>>>, self: Key, size: nat, table: map<Key, N>,
                                  b: nat, i: nat)
    requires Inv(buckets, self, size, table) && b < |buckets| && i < |buckets[b]|
    ensures Inv(buckets[b := SwapRemove(buckets[b], i)], self, size, table - {buckets[b][i].kadId})
  {
    hide Cpl;
    hide DistinctKeys;
    hide SwapRemove;
    var gone := buckets[b][i].kadId;
    SwapRemoveDrops(buckets[b], i);
    var nb, nt := buckets[b := SwapRemove(buckets[b], i)], table - {gone};
    assert InPlace(buckets[b][i], b, |buckets|, self, table);
    forall c: nat, q | c < |nb| && q in nb[c] ensures InPlace(q, c, |nb|, self, nt) {
      assert InPlace(q, c, |buckets|, self, table);
    }
    forall k | k in nt ensures Held(k, nb[BucketOf(self, |nb|, k)]) {
      var q :| q in buckets[BucketOf(self, |buckets|, k)] && q.kadId == k;
      assert q in nb[BucketOf(self, |nb|, k)];
    }
  }

  /** A bucket below the last holds exactly the keys of one prefix class; the last one holds every class from its
      index up. */
  lemma BucketIsClass<N(!new)>(buckets: seq<seq<PeerInfo<N>>>, self: Key, size: nat, table: map<Key, N>, c: nat)
    requires Inv(buckets, self, size, table)
    ensures c < |buckets| - 1 ==> CplClass(table.Keys, self, c) == KeySet(buckets[c])
    ensures c >= |buckets| - 1 ==>
      CplClass(table.Keys, self, c) == set k | k in KeySet(buckets[|buckets| - 1]) && |k| == |self| && Cpl(self, k) == c
  {
    var i := if c < |buckets| - 1 then c else |buckets| - 1;
    forall k | k in CplClass(table.Keys, self, c) ensures k in KeySet(buckets[i]) {
      assert Held(k, buckets[BucketOf(self, |buckets|, k)]);
    }
  }

  /** What that says about sizes. */
  lemma BucketSize<N(!new)>(buckets: seq<seq<PeerInfo<N>>>, self: Key, size: nat, table: map<Key, N>, c: nat)
    requires Inv(buckets, self, size, table)
    ensures c < |buckets| - 1 ==> |CplClass(table.Keys, self, c)| == |buckets[c]|
    ensures c >= |buckets| - 1 ==> |CplClass(table.Keys, self, c)| <= |buckets[|buckets| - 1]|
    ensures c >= |buckets| - 1 && (forall p :: p in buckets[|buckets| - 1] ==> Cpl(self, p.kadId) == c)
      ==> |CplClass(table.Keys, self, c)| == |buckets[|buckets| - 1]|
  {
    BucketIsClass(buckets, self, size, table, c);
    KeySetSize(buckets[if c < |buckets| - 1 then c else |buckets| - 1]);
    var last := buckets[|buckets| - 1];
    if c >= |buckets| - 1 {
      SubsetSize(CplClass(table.Keys, self, c), KeySet(last));
      if forall p :: p in last ==> Cpl(self, p.kadId) == c {
        assert CplClass(table.Keys, self, c) == KeySet(last);
      }
    }
  }

  /** The keys that share at least l bits with self. */
  ghost function Deep(keys: set<Key>, self: Key, l: int): set<Key> {
    set k | k in keys && |k| == |self| && Cpl(self, k) >= l
  }

  /** The last bucket holds all keys from its class up. */
  lemma LastIsDeep<N(!new)>(buckets: seq<seq<PeerInfo<N>>>, self: Key, size: nat, table: map<Key, N>)
    requires Inv(buckets, self, size, table)
    ensures |Deep(table.Keys, self, |buckets| - 1)| == |buckets[|buckets| - 1]|
  {
    BucketKeys(buckets, self, size, table, |buckets| - 1);
    hide Inv, Cpl;
    assert Deep(table.Keys, self, |buckets| - 1) == KeySet(buckets[|buckets| - 1]);
  }

  // ---------- nearest nodes ----------

  /** A key in t's own bucket is nearer to t than a key in any other bucket. */
  lemma SameBucketIsNearer(self: Key, count: nat, t: Key, x: Key, y: Key)
    requires count >= 1 && |t| == |x| == |y| == |self|
    requires BucketOf(self, count, x) == BucketOf(self, count, t) != BucketOf(self, count, y)
    ensures Nearer(t, x, y)
  {
    CplFacts(self, t);
    CplFacts(self, x);
    CplFacts(self, y);
    var b := BucketOf(self, count, t);
    if Cpl(self, y) < b {
      CplIs(t, y, Cpl(self, y));
    } else {
      CplIs(t, y, b);
    }
    CplFacts(t, x);
    assert Cpl(t, x) < |t| ==> t[Cpl(t, x)] != x[Cpl(t, x)];
    LongerPrefixIsNearer(t, x, y);
  }

  lemma BucketKeys<N(!new)>(buckets: seq<seq<PeerInfo<N>>>, self: Key, size: nat, table: map<Key, N>, b: nat)
    requires Inv(buckets, self, size, table) && b < |buckets|
    ensures KeySet(buckets[b]) <= table.Keys
    ensures forall k :: k in table ==> |k| == |self|
    ensures forall k :: k in KeySet(buckets[b]) ==> |k| == |self| && BucketOf(self, |buckets|, k) == b
    ensures forall k :: k in table.Keys - KeySet(buckets[b]) ==> BucketOf(self, |buckets|, k) != b
    ensures |KeySet(buckets[b])| == |buckets[b]|
    ensures StoredIn(buckets[b], table)
  {
    KeySetSize(buckets[b]);
    forall p | p in buckets[b] ensures InPlace(p, b, |buckets|, self, table) {}
    forall k | k in table.Keys && BucketOf(self, |buckets|, k) == b ensures k in KeySet(buckets[b]) {
      assert Held(k, buckets[b]);
    }
  }

  /** The shortcut: a bucket of exactly n peers is the answer for every target that belongs to it. */
  lemma OwnBucketIsNearest<N(!new)>(buckets: seq<seq<PeerInfo<N>>>, self: Key, size: nat, table: map<Key, N>, t: Key)
    requires Inv(buckets, self, size, table) && |t| == |self|
    ensures var b := buckets[BucketOf(self, |buckets|, t)];
      && SameLength(KeySet(b), t) && KeysFit(table, t)
      && Take(Ranked(table.Keys, t), |b|) == Ranked(KeySet(b), t)
  {
    hide Nearer;
    hide KeySet;
    hide IsRanking;
    hide BucketOf;
    var i := BucketOf(self, |buckets|, t);
    BucketKeys(buckets, self, size, table, i);
    var near := KeySet(buckets[i]);
    var far := table.Keys - near;
    forall x, y | x in near && y in far ensures Nearer(t, x, y) {
      SameBucketIsNearer(self, |buckets|, t, x, y);
    }
    RankedUnion(near, far, t);
    assert near + far == table.Keys;
  }

  function Without<N(!new)>(b: seq<PeerInfo<N>>, k: Key): (r: seq<PeerInfo<N>>)
    ensures forall p :: p in r <==> p in b && p.kadId != k
  {
    if b == [] then [] else
    var n := |b| - 1;
    assert b == b[..n] + [b[n]];
    Without(b[..n], k) + if b[n].kadId != k then [b[n]] else []
  }

  lemma WithoutNone<N(!new)>(b: seq<PeerInfo<N>>, k: Key)
    ensures Without(b[..0], k) == []
  {
  }

  lemma WithoutAppend<N(!new)>(b: seq<PeerInfo<N>>, p: PeerInfo<N>, k: Key)
    ensures Without(b + [p], k) == Without(b, k) + if p.kadId != k then [p] else []
  {
    assert (b + [p])[..|b|] == b;
  }

  lemma {:induction false} WithoutDistinct<N(!new)>(b: seq<PeerInfo<N>>, k: Key)
    requires DistinctKeys(b)
    ensures DistinctKeys(Without(b, k))
  {
    if b != [] {
      var n := |b| - 1;
      WithoutDistinct(b[..n], k);
      var r := Without(b[..n], k);
      forall i | 0 <= i < |r| ensures r[i].kadId != b[n].kadId {
        assert r[i] in b[..n];
      }
    }
  }

  function WithoutAll<N(!new)>(buckets: seq<seq<PeerInfo<N>>>, n: nat, k: Key): seq<PeerInfo<N>>
    requires n <= |buckets|
  {
    if n == 0 then [] else WithoutAll(buckets, n - 1, k) + Without(buckets[n - 1], k)
  }

  lemma ConcatDistinct<N(!new)>(a: seq<PeerInfo<N>>, b: seq<PeerInfo<N>>)
    requires DistinctKeys(a) && DistinctKeys(b)
    requires forall p, q :: p in a && q in b ==> p.kadId != q.kadId
    ensures DistinctKeys(a + b)
  {
    var c := a + b;
    forall i, j | 0 <= i < j < |c| ensures c[i].kadId != c[j].kadId {
      if i < |a| <= j { assert c[i] in a && c[j] in b; }
    }
  }

  /** r is what the first n buckets hold, apart from self. */
  ghost predicate GatheredFrom<N(!new)>(r: seq<PeerInfo<N>>, n: nat, count: nat, self: Key, table: map<Key, N>)
    requires count >= 1
  {
    && DistinctKeys(r)
    && (forall p :: p in r ==> p.kadId != self && exists i: nat :: i < n && InPlace(p, i, count, self, table))
    && (forall k :: k in table && k != self && |k| == |self| && BucketOf(self, count, k) < n ==> Held(k, r))
  }

  lemma GatherBucket<N(!new)>(buckets: seq<seq<PeerInfo<N>>>, self: Key, size: nat, table: map<Key, N>, n: nat,
                              r: seq<PeerInfo<N>>)
    requires Inv(buckets, self, size, table) && n < |buckets|
    requires GatheredFrom(r, n, |buckets|, self, table)
    ensures GatheredFrom(r + Without(buckets[n], self), n + 1, |buckets|, self, table)
  {
    hide DistinctKeys;
    hide BucketOf;
    hide Without;
    var b := Without(buckets[n], self);
    WithoutDistinct(buckets[n], self);
    assert forall p :: p in b ==> InPlace(p, n, |buckets|, self, table);
    ConcatDistinct(r, b);
    forall k | k in table && k != self && |k| == |self| && BucketOf(self, |buckets|, k) < n + 1 ensures Held(k, r + b) {
      if BucketOf(self, |buckets|, k) == n {
        var p :| p in buckets[n] && p.kadId == k;
        assert p in r + b;
      } else {
        var p :| p in r && p.kadId == k;
        assert p in r + b;
      }
    }
  }

  lemma NothingGathered<N(!new)>(buckets: seq<seq<PeerInfo<N>>>, self: Key, table: map<Key, N>)
    requires buckets != []
    ensures GatheredFrom(WithoutAll(buckets, 0, self), 0, |buckets|, self, table)
  {}

  lemma {:induction false} Gathered<N(!new)>(buckets: seq<seq<PeerInfo<N>>>, self: Key, size: nat,
                                             table: map<Key, N>, n: nat)
    requires Inv(buckets, self, size, table) && n <= |buckets|
    ensures GatheredFrom(WithoutAll(buckets, n, self), n, |buckets|, self, table)
  {
    hide GatheredFrom;
    if n == 0 {
      NothingGathered(buckets, self, table);
    } else {
      Gathered(buckets, self, size, table, n - 1);
      GatherBucket(buckets, self, size, table, n - 1, WithoutAll(buckets, n - 1, self));
    }
  }

  /** Gathering everything leaves exactly the table without self. */
  lemma GatheredAll<N(!new)>(buckets: seq<seq<PeerInfo<N>>>, self: Key, size: nat, table: map<Key, N>)
    requires Inv(buckets, self, size, table)
    ensures var r := WithoutAll(buckets, |buckets|, self);
      && DistinctKeys(r) && Lengths(r, self) && StoredIn(r, table - {self}) && KeySet(r) == (table - {self}).Keys
  {
    Gathered(buckets, self, size, table, |buckets|);
    var r := WithoutAll(buckets, |buckets|, self);
    assert forall i :: 0 <= i < |r| ==> r[i] in r;
    forall k | k in (table - {self}).Keys ensures k in KeySet(r) {
      assert Held(k, r);
    }
  }

  /** The first n ids of the sorted peers are the nearest n nodes of the map the peers make up. */
  lemma SortedIds<N(!new)>(peers: seq<PeerInfo<N>>, m: map<Key, N>, t: Key, n: nat)
    requires Lengths(peers, t) && DistinctKeys(peers) && StoredIn(peers, m)
    requires KeysFit(m, t) && SameLength(KeySet(peers), t)
    requires Take(Ranked(m.Keys, t), n) == Take(Ranked(KeySet(peers), t), n)
    ensures Ids(Take(StableSort(peers, t), n)) == NearestNodesOf(m, t, n)
  {
    hide DistinctKeys;
    hide StableSort;
    hide IsRanking;
    hide SameLength;
    SortRanks(peers, t);
    var s := StableSort(peers, t);
    forall i | 0 <= i < |s| ensures s[i].kadId in m && m[s[i].kadId] == s[i].id {
      assert s[i] in multiset(s);
    }
    assert KeySeq(s) == Ranked(KeySet(peers), t);
  }

  function Ids<N>(ps: seq<PeerInfo<N>>): seq<N> {
    seq(|ps|, i requires 0 <= i < |ps| => ps[i].id)
  }

  // ---------- the table ----------

  class SimpleRT<N(!new)> {
    const self: Key
    const bucketSize: nat
    var buckets: seq<seq<PeerInfo<N>>>
    ghost var table: map<Key, N>

    ghost predicate Valid()
      reads this
    {
      Inv(buckets, self, bucketSize, table) && |buckets| <= |self| + 2
    }

    constructor (self: Key, bucketSize: nat)
      ensures Valid() && table == map[] && this.self == self && this.bucketSize == bucketSize
    {
      this.self, this.bucketSize := self, bucketSize;
      buckets, table := [[]], map[];
    }

    function BucketIdForKey(kadId: Key): (bid: nat)
      requires |kadId| == |self| && |buckets| >= 1
      reads this
      ensures bid == BucketOf(self, |buckets|, kadId)
    {
      var bid := Cpl(self, kadId);
      if bid >= |buckets| then |buckets| - 1 else bid
    }

    /** The position of kadId in its bucket, or the bucket's length. */
    method IndexInBucket(kadId: Key, bid: nat) returns (i: nat)
      requires Valid() && |kadId| == |self| && bid == BucketOf(self, |buckets|, kadId)
      ensures i <= |buckets[bid]|
      ensures kadId in table <==> i < |buckets[bid]|
      ensures i < |buckets[bid]| ==> buckets[bid][i].kadId == kadId && table[kadId] == buckets[bid][i].id
    {
      i := 0;
      while i < |buckets[bid]|
        invariant i <= |buckets[bid]|
        invariant forall j :: 0 <= j < i ==> buckets[bid][j].kadId != kadId
      {
        if buckets[bid][i].kadId == kadId {
          assert InPlace(buckets[bid][i], bid, |buckets|, self, table);
          return;
        }
        i := i + 1;
      }
      assert kadId in table ==> Held(kadId, buckets[bid]);
    }

    method RemoveKey(kadId: Key) returns (removed: bool)
      requires Valid() && |kadId| == |self|
      modifies this
      ensures Valid() && table == old(table) - {kadId} && |buckets| == |old(buckets)|
      ensures removed <==> kadId in old(table)
    {
      var bid := BucketIdForKey(kadId);
      var i := IndexInBucket(kadId, bid);
      if i == |buckets[bid]| {
        return false;
      }
      RemoveFromBucket(buckets, self, bucketSize, table, bid, i);
      buckets := buckets[bid := SwapRemove(buckets[bid], i)];
      table := table - {kadId};
      return true;
    }

    method GetNode(kadId: Key) returns (r: Option<N>)
      requires Valid() && |kadId| == |self|
      ensures r == if kadId in table then Some(table[kadId]) else None
    {
      var bid := BucketIdForKey(kadId);
      var i := IndexInBucket(kadId, bid);
      r := if i < |buckets[bid]| then Some(buckets[bid][i].id) else None;
    }

    /** Adding the key splits the last bucket: it is new, belongs there, and the bucket is full. */
    ghost predicate Splits(kadId: Key)
      requires |kadId| == |self|
      reads this
    {
      && kadId !in table && Cpl(self, kadId) >= |buckets| - 1
      && |Deep(table.Keys, self, |buckets| - 1)| == bucketSize
    }

    /** From count buckets on, the last one was split as long as it was full, until it was not; or until it was full of
        the new key's own class, which leaves no room. */
    ghost predicate SplitTo(keys: set<Key>, count: nat, room: bool, cpl: nat)
      reads this
    {
      && count <= |buckets|
      && (forall l :: count - 1 <= l < |buckets| - 1 ==> |Deep(keys, self, l)| == bucketSize)
      && if room then |Deep(keys, self, |buckets| - 1)| < bucketSize else cpl == |buckets| - 1
    }

    /** The new node is stored exactly if its key is new and its prefix class has room; a refusal leaves
        the contents as they were, whatever splitting happened on the way. */
    method AddNode(kadId: Key, id: N) returns (added: bool)
      requires Valid() && |kadId| == |self|
      modifies this
      ensures Valid()
      ensures added <==> kadId !in old(table) && |CplClass(old(table).Keys, self, Cpl(self, kadId))| < bucketSize
      ensures table == if added then old(table)[kadId := id] else old(table)
      ensures old(Splits(kadId)) ==> SplitTo(old(table).Keys, |old(buckets)|, added, Cpl(self, kadId))
      ensures !old(Splits(kadId)) ==> |buckets| == |old(buckets)|
    {
      hide Inv, Deep, CplClass, Cpl;
      BucketBounds(buckets, self, bucketSize, table);
      LastIsDeep(buckets, self, bucketSize, table);
      var bid := BucketIdForKey(kadId);
      var lastBucketId := |buckets| - 1;
      ghost var c := Cpl(self, kadId);
      BucketSize(buckets, self, bucketSize, table, c);
      var i := IndexInBucket(kadId, bid);
      if i < |buckets[bid]| {
        return false;
      }
      if bid < lastBucketId {
        if |buckets[bid]| >= bucketSize {
          return false;
        }
        Append(bid, PeerInfo(id, kadId));
        return true;
      }
      if |buckets[lastBucketId]| < bucketSize {
        Append(lastBucketId, PeerInfo(id, kadId));
        return true;
      }
      var room := SplitLastBucket(kadId);
      if !room {
        return false;
      }
      var newBid := BucketIdForKey(kadId);
      Append(newBid, PeerInfo(id, kadId));
      return true;
    }

    /** Split the full last bucket, and the new last bucket while that is full, until there is room for
        kadId; give up when every peer in the last bucket is in kadId's own prefix class. */
    method SplitLastBucket(kadId: Key) returns (room: bool)
      requires Valid() && |kadId| == |self| && Cpl(self, kadId) >= |buckets| - 1
      modifies this
      ensures Valid() && table == old(table)
      ensures room <==> |CplClass(table.Keys, self, Cpl(self, kadId))| < bucketSize
      ensures room ==> |buckets[BucketOf(self, |buckets|, kadId)]| < bucketSize
      ensures |old(buckets)[|old(buckets)| - 1]| == bucketSize ==>
        SplitTo(table.Keys, |old(buckets)|, room, Cpl(self, kadId))
    {
      hide Inv;
      hide Deep;
      hide CplClass;
      hide Cpl;
      hide Part;
      BucketBounds(buckets, self, bucketSize, table);
      var lastBucketId := |buckets| - 1;
      ghost var c := Cpl(self, kadId);
      while |buckets[lastBucketId]| == bucketSize
        invariant Valid() && table == old(table) && 0 <= lastBucketId == |buckets| - 1
        invariant lastBucketId > c ==> |buckets[c]| < bucketSize
        invariant bucketSize == 0 ==> lastBucketId <= c
        invariant |old(buckets)| <= |buckets|
        invariant forall l :: |old(buckets)| - 1 <= l < lastBucketId ==> |Deep(table.Keys, self, l)| == bucketSize
        decreases |self| + 1 - lastBucketId
      {
        LastIsDeep(buckets, self, bucketSize, table);
        BucketBounds(buckets, self, bucketSize, table);
        LastSplit(buckets, self, bucketSize, table, kadId);
        SplitLast(buckets, self, bucketSize, table);
        var farBucket, closeBucket := SplitBucket(buckets[lastBucketId], lastBucketId);
        if |farBucket| == bucketSize && Cpl(self, kadId) == lastBucketId {
          FarIsClass(buckets, self, bucketSize, table);
          return false;
        }
        PartSizes(buckets[lastBucketId], self, lastBucketId);
        buckets := buckets[lastBucketId := farBucket] + [closeBucket];
        lastBucketId := lastBucketId + 1;
      }
      BucketBounds(buckets, self, bucketSize, table);
      BucketSize(buckets, self, bucketSize, table, c);
      LastIsDeep(buckets, self, bucketSize, table);
      return true;
    }

    method Append(bid: nat, p: PeerInfo<N>)
      requires Valid() && |p.kadId| == |self| && p.kadId !in table
      requires bid == BucketOf(self, |buckets|, p.kadId) && |buckets[bid]| < bucketSize
      modifies this
      ensures Valid() && table == old(table)[p.kadId := p.id] && |buckets| == |old(buckets)|
    {
      AddToBucket(buckets, self, bucketSize, table, p);
      buckets := buckets[bid := buckets[bid] + [p]];
      table := table[p.kadId := p.id];
    }

    /** Divide a bucket into the peers at exactly last bits from self and the others. */
    method SplitBucket(b: seq<PeerInfo<N>>, last: nat) returns (far: seq<PeerInfo<N>>, close: seq<PeerInfo<N>>)
      requires forall p :: p in b ==> |p.kadId| == |self|
      ensures far == Part(b, self, last, true) && close == Part(b, self, last, false)
    {
      far, close := [], [];
      for i := 0 to |b|
        invariant far == Part(b[..i], self, last, true) && close == Part(b[..i], self, last, false)
      {
        assert b[..i + 1] == b[..i] + [b[i]];
        PartAppend(b[..i], b[i], self, last, true);
        PartAppend(b[..i], b[i], self, last, false);
        if Cpl(b[i].kadId, self) == last {
          far := far + [b[i]];
        } else {
          close := close + [b[i]];
        }
      }
      assert b[..|b|] == b;
    }

    /** If the bucket the target falls into has exactly n peers, they are the answer and no other bucket is
        looked at; otherwise every stored node but self is considered. */
    method NearestNodes(kadId: Key, n: nat) returns (nodes: seq<N>)
      requires Valid() && |kadId| == |self|
      ensures KeysFit(table, kadId)
      ensures var shortcut := |buckets[BucketOf(self, |buckets|, kadId)]| == n;
        nodes == NearestNodesOf(if shortcut then table else table - {self}, kadId, n)
    {
      var bid := BucketIdForKey(kadId);
      var peers: seq<PeerInfo<N>>;
      ghost var m;
      if |buckets[bid]| == n {
        peers, m := buckets[bid], table;
        BucketKeys(buckets, self, bucketSize, table, bid);
        OwnBucketIsNearest(buckets, self, bucketSize, table, kadId);
      } else {
        peers := GatherPeers();
        m := table - {self};
      }
      SortedIds(peers, m, kadId, n);
      nodes := FirstIds(StableSort(peers, kadId), n);
    }

    /** Every stored peer but self. */
    method GatherPeers() returns (peers: seq<PeerInfo<N>>)
      requires Valid()
      ensures DistinctKeys(peers) && Lengths(peers, self)
      ensures StoredIn(peers, table - {self}) && KeySet(peers) == (table - {self}).Keys
    {
      hide Inv;
      hide Without;
      peers := [];
      for i := 0 to |buckets|
        invariant peers == WithoutAll(buckets, i, self)
      {
        WithoutNone(buckets[i], self);
        for j := 0 to |buckets[i]|
          invariant peers == WithoutAll(buckets, i, self) + Without(buckets[i][..j], self)
        {
          assert buckets[i][..j + 1] == buckets[i][..j] + [buckets[i][j]];
          WithoutAppend(buckets[i][..j], buckets[i][j], self);
          if buckets[i][j].kadId != self {
            peers := peers + [buckets[i][j]];
          }
        }
        assert buckets[i][..|buckets[i]|] == buckets[i];
      }
      GatheredAll(buckets, self, bucketSize, table);
    }

    static method FirstIds(ps: seq<PeerInfo<N>>, n: nat) returns (ids: seq<N>)
      ensures ids == Ids(Take(ps, n))
    {
      var count := if n < |ps| then n else |ps|;
      ids := [];
      for i := 0 to count
        invariant |ids| == i && forall j :: 0 <= j < i ==> ids[j] == ps[j].id
      {
        ids := ids + [ps[i].id];
      }
    }
  }

  /** If the last bucket is all far, it is the whole class of its index. */
  lemma FarIsClass<N(!new)>(buckets: seq<seq<PeerInfo<N>>>, self: Key, size: nat, table: map<Key, N>)
    requires Inv(buckets, self, size, table)
    requires forall p :: p in buckets[|buckets| - 1] ==> |p.kadId| == |self|
    requires |Part(buckets[|buckets| - 1], self, |buckets| - 1, true)| == |buckets[|buckets| - 1]|
    ensures |CplClass(table.Keys, self, |buckets| - 1)| == |buckets[|buckets| - 1]|
  {
    var last := |buckets| - 1;
    PartSizes(buckets[last], self, last);
    assert Part(buckets[last], self, last, false) == [];
    forall p | p in buckets[last] ensures Cpl(self, p.kadId) == last {
      CplSymmetric(self, p.kadId);
      assert p in Part(buckets[last], self, last, false) || CplIsC(p, self, last);
    }
    BucketSize(buckets, self, size, table, last);
  }

  /** A bucket past the last bit of the keys is empty, so a full bucket is split at most once more. */
  lemma LastSplit<N(!new)>(buckets: seq<seq<PeerInfo<N>>>, self: Key, size: nat, table: map<Key, N>, kadId: Key)
    requires Inv(buckets, self, size, table) && |kadId| == |self| && |buckets[|buckets| - 1]| == size
    requires size == 0 ==> |buckets| - 1 <= Cpl(self, kadId)
    ensures |buckets| - 1 <= |self|
  {
    var last := |buckets| - 1;
    if size > 0 {
      var p := buckets[last][0];
      assert InPlace(p, last, |buckets|, self, table);
    }
  }
}
