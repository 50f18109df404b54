/** What a routing table means to its callers: a map from keys to nodes, and nearest-node queries on it. */
module Tables {
  import opened Keys
  import opened Nearest
  import opened TrieSearch
  import opened Tries

  ghost predicate KeysFit<N>(m: map<Key, N>, t: Key) {
    SameLength(m.Keys, t)
  }

  /** The nodes stored under the keys ks. */
  ghost function At<N>(m: map<Key, N>, ks: seq<Key>): (r: seq<N>)
    requires forall i :: 0 <= i < |ks| ==> ks[i] in m
    ensures |r| == |ks| && forall i :: 0 <= i < |ks| ==> r[i] == m[ks[i]]
  {
    seq(|ks|, i requires 0 <= i < |ks| => m[ks[i]])
  }

  /** The n nodes of m nearest to t, nearest first. */
  ghost function NearestNodesOf<N>(m: map<Key, N>, t: Key, n: nat): seq<N>
    requires KeysFit(m, t)
  {
    At(m, Take(Ranked(m.Keys, t), n))
  }

  /** A list of nodes is NearestNodesOf exactly when it lists, in order, the nodes of keys that are the
      n nearest in the sense of IsNearest. */
  lemma NearestNodesMeaning<N>(m: map<Key, N>, t: Key, n: nat, ks: seq<Key>)
    requires KeysFit(m, t)
    ensures IsNearest(ks, m.Keys, t, n) <==> ks == Take(Ranked(m.Keys, t), n)
  {
    RankingPrefix(Ranked(m.Keys, t), m.Keys, t, n);
    if IsNearest(ks, m.Keys, t, n) {
      NearestUnique(ks, Take(Ranked(m.Keys, t), n), m.Keys, t, n);
    }
  }

  // ---------- the per-prefix cap ----------

  /** No more than max stored keys share any one common prefix length with self. */
  ghost predicate Capped(keys: set<Key>, self: Key, max: nat) {
    forall c: int :: |CplClass(keys, self, c)| <= max
  }

  lemma AddKeepsCap(keys: set<Key>, self: Key, max: nat, kk: Key)
    requires |kk| == |self| && Capped(keys, self, max)
    requires kk in keys || |CplClass(keys, self, Cpl(self, kk))| < max
    ensures Capped(keys + {kk}, self, max)
  {
    forall c: int ensures |CplClass(keys + {kk}, self, c)| <= max {
      if c == Cpl(self, kk) && kk !in keys {
        assert CplClass(keys + {kk}, self, c) == CplClass(keys, self, c) + {kk};
      } else {
        assert CplClass(keys + {kk}, self, c) == CplClass(keys, self, c);
      }
    }
  }

  lemma RemoveKeepsCap(keys: set<Key>, self: Key, max: nat, kk: Key)
    requires Capped(keys, self, max)
    ensures Capped(keys - {kk}, self, max)
  {
    forall c: int ensures |CplClass(keys - {kk}, self, c)| <= max {
      SubsetSize(CplClass(keys - {kk}, self, c), CplClass(keys, self, c));
    }
  }

  // ---------- runs of table updates under a cap ----------

  datatype TableOp<N> = AddNode(key: Key, node: N) | RemoveKey(key: Key)

  /** One operation on a table that admits a key only while fewer than max stored keys are in its class. */
  ghost function CappedStep<N>(m: map<Key, N>, self: Key, max: nat, op: TableOp<N>): map<Key, N>
    requires |op.key| == |self|
  {
    match op
    case AddNode(k, v) => if |CplClass(m.Keys, self, Cpl(self, k))| < max then Insert(m, k, v) else m
    case RemoveKey(k) => m - {k}
  }

  ghost function CappedRun<N>(m: map<Key, N>, self: Key, max: nat, ops: seq<TableOp<N>>): map<Key, N>
    requires forall i :: 0 <= i < |ops| ==> |ops[i].key| == |self|
    decreases |ops|
  {
    if ops == [] then m else CappedRun(CappedStep(m, self, max, ops[0]), self, max, ops[1..])
  }

  lemma StepKeepsCap<N>(m: map<Key, N>, self: Key, max: nat, op: TableOp<N>)
    requires |op.key| == |self| && Capped(m.Keys, self, max)
    ensures Capped(CappedStep(m, self, max, op).Keys, self, max)
  {
    match op
    case AddNode(k, v) =>
      if |CplClass(m.Keys, self, Cpl(self, k))| < max {
        AddKeepsCap(m.Keys, self, max, k);
        assert Insert(m, k, v).Keys == m.Keys + {k};
      }
    case RemoveKey(k) =>
      RemoveKeepsCap(m.Keys, self, max, k);
      assert (m - {k}).Keys == m.Keys - {k};
  }

  /** Whatever is added and removed, in whatever order, no class ever exceeds the cap. */
  lemma {:induction false} RunKeepsCap<N>(m: map<Key, N>, self: Key, max: nat, ops: seq<TableOp<N>>)
    requires forall i :: 0 <= i < |ops| ==> |ops[i].key| == |self|
    requires Capped(m.Keys, self, max)
    ensures Capped(CappedRun(m, self, max, ops).Keys, self, max)
    decreases |ops|
  {
    if ops != [] {
      StepKeepsCap(m, self, max, ops[0]);
      RunKeepsCap(CappedStep(m, self, max, ops[0]), self, max, ops[1..]);
    }
  }
}
