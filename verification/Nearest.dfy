/** What "the n nearest keys" means, and that it has exactly one answer. */
module Nearest {
  import opened Keys

  ghost predicate SameLength(keys: set<Key>, t: Key) {
    forall k :: k in keys ==> |k| == |t|
  }

  ghost predicate Increasing(t: Key, s: seq<Key>)
    requires forall i :: 0 <= i < |s| ==> |s[i]| == |t|
  {
    forall i, j :: 0 <= i < j < |s| ==> Nearer(t, s[i], s[j])
  }

  /** ks lists the min(n, |keys|) members of keys that are nearest to t, nearest first. */
  ghost predicate IsNearest(ks: seq<Key>, keys: set<Key>, t: Key, n: int)
    requires SameLength(keys, t)
  {
    && |ks| == (if n < |keys| then (if n < 0 then 0 else n) else |keys|)
    && (forall i :: 0 <= i < |ks| ==> ks[i] in keys)
    && Increasing(t, ks)
    && (forall i, k :: 0 <= i < |ks| && k in keys && k !in ks ==> Nearer(t, ks[i], k))
  }

  /** s is all of keys, nearest to t first. */
  ghost predicate IsRanking(s: seq<Key>, keys: set<Key>, t: Key)
    requires SameLength(keys, t)
  {
    && (forall k :: k in s <==> k in keys)
    && Increasing(t, s)
  }

  /** b holds a's i-th key no earlier than position i, so it cannot be nearer than b's own i-th key. */
  lemma NotBefore(a: seq<Key>, b: seq<Key>, keys: set<Key>, t: Key, n: int, i: nat)
    requires SameLength(keys, t)
    requires IsNearest(a, keys, t, n) && IsNearest(b, keys, t, n)
    requires i < |a| && forall j :: 0 <= j < i ==> a[j] == b[j]
    ensures !Nearer(t, a[i], b[i])
  {
    var x, y := a[i], b[i];
    NearerTotal(t, x, y);
    NearerTotal(t, x, x);
    if x in b {
      var j :| 0 <= j < |b| && b[j] == x;
      IncreasingDistinct(a, t);
      if i < j {
        assert Nearer(t, y, x);
      }
    } else {
      assert Nearer(t, b[i], x);
    }
  }

  lemma {:induction false} AgreeUpTo(a: seq<Key>, b: seq<Key>, keys: set<Key>, t: Key, n: int, i: nat)
    requires SameLength(keys, t)
    requires IsNearest(a, keys, t, n) && IsNearest(b, keys, t, n)
    requires i <= |a|
    ensures forall j :: 0 <= j < i ==> a[j] == b[j]
  {
    if i > 0 {
      AgreeUpTo(a, b, keys, t, n, i - 1);
      NotBefore(a, b, keys, t, n, i - 1);
      NotBefore(b, a, keys, t, n, i - 1);
      NearerTotal(t, a[i - 1], b[i - 1]);
    }
  }

  /** The n nearest keys are determined: any two lists that qualify are the same list. */
  lemma NearestUnique(a: seq<Key>, b: seq<Key>, keys: set<Key>, t: Key, n: int)
    requires SameLength(keys, t)
    requires IsNearest(a, keys, t, n) && IsNearest(b, keys, t, n)
    ensures a == b
  {
    AgreeUpTo(a, b, keys, t, n, |a|);
  }

  /** A strictly increasing list has no duplicates, so its length is its number of keys. */
  lemma {:induction false} IncreasingDistinct(s: seq<Key>, t: Key)
    requires forall i :: 0 <= i < |s| ==> |s[i]| == |t|
    requires Increasing(t, s)
    ensures |set k | k in s| == |s|
    ensures forall i, j :: 0 <= i < j < |s| ==> s[i] != s[j]
  {
    forall i, j | 0 <= i < j < |s| ensures s[i] != s[j] {
      NearerTotal(t, s[i], s[j]);
    }
    DistinctCount(s);
  }

  ghost predicate Distinct<T>(s: seq<T>) {
    forall i, j :: 0 <= i < j < |s| ==> s[i] != s[j]
  }

  lemma {:induction false} DistinctCount<T>(s: seq<T>)
    requires Distinct(s)
    ensures |set k | k in s| == |s|
  {
    if s == [] {
      assert (set k | k in s) == {};
    } else {
      DistinctCount(s[1..]);
      assert (set k | k in s) == (set k | k in s[1..]) + {s[0]};
      assert s[0] !in s[1..];
    }
  }

  lemma SubsetSize<T>(a: set<T>, b: set<T>)
    requires a <= b
    ensures |a| <= |b| && (a != b ==> |a| < |b|)
  {
    assert b == a + (b - a);
  }

  /** A full ranking's first n keys are the n nearest. */
  lemma RankingPrefix(s: seq<Key>, keys: set<Key>, t: Key, n: int)
    requires SameLength(keys, t)
    requires IsRanking(s, keys, t)
    ensures |s| == |keys|
    ensures 0 <= n <= |s| ==> IsNearest(s[..n], keys, t, n)
    ensures n >= |s| ==> IsNearest(s, keys, t, n)
  {
    IncreasingDistinct(s, t);
    assert (set k | k in s) == keys;
    if 0 <= n <= |s| {
      forall i, k | 0 <= i < n && k in keys && k !in s[..n] ensures Nearer(t, s[i], k) {
        var j :| 0 <= j < |s| && s[j] == k;
        assert forall m :: 0 <= m < n ==> s[m] == s[..n][m];
      }
    }
  }

  /** Insert k into a ranking. */
  ghost function InsertKey(k: Key, s: seq<Key>, t: Key): (r: seq<Key>)
    requires |k| == |t| && forall i :: 0 <= i < |s| ==> |s[i]| == |t|
    ensures forall x :: x in r <==> x == k || x in s
    ensures forall i :: 0 <= i < |r| ==> |r[i]| == |t|
  {
    if s == [] || Nearer(t, k, s[0]) then [k] + s else
    assert s == [s[0]] + s[1..];
    [s[0]] + InsertKey(k, s[1..], t)
  }

  lemma IncreasingCons(x: Key, s: seq<Key>, t: Key)
    requires |x| == |t| && forall i :: 0 <= i < |s| ==> |s[i]| == |t|
    requires Increasing(t, s)
    requires forall y :: y in s ==> |y| == |t| && Nearer(t, x, y)
    ensures Increasing(t, [x] + s)
  {
  }

  lemma {:induction false} InsertKeyIncreasing(k: Key, s: seq<Key>, t: Key)
    requires |k| == |t| && forall i :: 0 <= i < |s| ==> |s[i]| == |t|
    requires Increasing(t, s) && k !in s
    ensures Increasing(t, InsertKey(k, s, t))
  {
    if s == [] {
    } else if Nearer(t, k, s[0]) {
      forall y | y in s ensures Nearer(t, k, y) {
        var j :| 0 <= j < |s| && s[j] == y;
        if j > 0 { NearerTransitive(t, k, s[0], s[j]); }
      }
      IncreasingCons(k, s, t);
    } else {
      NearerTotal(t, k, s[0]);
      InsertKeyIncreasing(k, s[1..], t);
      IncreasingCons(s[0], InsertKey(k, s[1..], t), t);
    }
  }

  lemma InsertKeyRanks(k: Key, s: seq<Key>, keys: set<Key>, t: Key)
    requires |k| == |t| && SameLength(keys, t) && k !in keys
    requires IsRanking(s, keys, t)
    ensures IsRanking(InsertKey(k, s, t), keys + {k}, t)
  {
    InsertKeyIncreasing(k, s, t);
  }

  /** Every finite set of keys can be ranked. */
  lemma {:induction false} RankingExists(keys: set<Key>, t: Key) returns (s: seq<Key>)
    requires SameLength(keys, t)
    ensures IsRanking(s, keys, t)
    decreases keys
  {
    if keys == {} {
      s := [];
    } else {
      var k :| k in keys;
      var r := RankingExists(keys - {k}, t);
      InsertKeyRanks(k, r, keys - {k}, t);
      s := InsertKey(k, r, t);
      assert keys - {k} + {k} == keys;
    }
  }

  lemma RankingUnique(a: seq<Key>, b: seq<Key>, keys: set<Key>, t: Key)
    requires SameLength(keys, t)
    requires IsRanking(a, keys, t) && IsRanking(b, keys, t)
    ensures a == b
  {
    RankingPrefix(a, keys, t, |keys|);
    RankingPrefix(b, keys, t, |keys|);
    NearestUnique(a, b, keys, t, |keys|);
  }

  /** The ranking of a set of keys by distance to t. */
  ghost function Ranked(keys: set<Key>, t: Key): (s: seq<Key>)
    requires SameLength(keys, t)
    ensures IsRanking(s, keys, t)
    ensures |s| == |keys|
  {
    assert exists s :: IsRanking(s, keys, t) by { var s := RankingExists(keys, t); }
    var s :| IsRanking(s, keys, t);
    RankingPrefix(s, keys, t, 0);
    s
  }

  function Take<T>(s: seq<T>, n: int): (r: seq<T>)
    requires n >= 0
    ensures |r| == if n < |s| then n else |s|
  {
    if n < |s| then s[..n] else s
  }
}
