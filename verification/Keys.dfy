/** Kademlia keys as bit strings, most significant bit first, and the XOR metric on them.

    A key of the source has a fixed number of bits; here every statement holds for bit strings of
    any common length. */
module Keys {
  type Key = seq<bool>

  function BitValue(b: bool): nat {
    if b then 1 else 0
  }

  function Pow2(n: nat): (r: nat)
    ensures r >= 1
  {
    if n == 0 then 1 else 2 * Pow2(n - 1)
  }

  /** The number a key stands for. */
  function Value(k: Key): (r: nat)
    ensures r < Pow2(|k|)
  {
    if k == [] then 0 else BitValue(k[0]) * Pow2(|k| - 1) + Value(k[1..])
  }

  function Xor(a: Key, b: Key): (r: Key)
    requires |a| == |b|
    ensures |r| == |a|
    ensures forall i :: 0 <= i < |a| ==> r[i] == (a[i] != b[i])
  {
    seq(|a|, i requires 0 <= i < |a| => a[i] != b[i])
  }

  /** The number of leading bits two keys share; CplFacts says what it is. */
  function Cpl(a: Key, b: Key): (r: nat)
    requires |a| == |b|
    ensures r <= |a|
  {
    CplFrom(a, b, 0)
  }

  function CplFrom(a: Key, b: Key, i: nat): (r: nat)
    requires |a| == |b| && i <= |a|
    ensures i <= r <= |a|
    decreases |a| - i
  {
    if i == |a| || a[i] != b[i] then i else CplFrom(a, b, i + 1)
  }

  /** Compares the numbers two keys stand for. */
  function Compare(a: Key, b: Key): int {
    if Value(a) < Value(b) then -1 else if Value(a) > Value(b) then 1 else 0
  }

  /** a is strictly nearer to t than b is: the first bit where a and b differ agrees with t in a. */
  predicate Nearer(t: Key, a: Key, b: Key)
    requires |t| == |a| == |b|
  {
    var c := Cpl(a, b);
    c < |a| && a[c] == t[c]
  }

  // ---------- common prefixes ----------

  lemma {:induction false} CplFromFacts(a: Key, b: Key, i: nat)
    requires |a| == |b| && i <= |a|
    ensures var r := CplFrom(a, b, i);
      && (forall j :: i <= j < r ==> a[j] == b[j])
      && (r < |a| ==> a[r] != b[r])
    decreases |a| - i
  {
    if i < |a| && a[i] == b[i] {
      CplFromFacts(a, b, i + 1);
    }
  }

  /** The keys agree on the first Cpl bits and, unless they are equal, differ in the next one. */
  lemma CplFacts(a: Key, b: Key)
    requires |a| == |b|
    ensures var r := Cpl(a, b);
      && (forall j :: 0 <= j < r ==> a[j] == b[j])
      && (r < |a| ==> a[r] != b[r])
      && (r == |a| <==> a == b)
  {
    CplFromFacts(a, b, 0);
  }

  lemma CplIs(a: Key, b: Key, c: nat)
    requires |a| == |b| && c <= |a|
    requires forall i :: 0 <= i < c ==> a[i] == b[i]
    requires c < |a| ==> a[c] != b[c]
    ensures Cpl(a, b) == c
  {
    CplFacts(a, b);
    var r := Cpl(a, b);
    assert r < |a| ==> a[r] != b[r];
  }

  lemma CplSymmetric(a: Key, b: Key)
    requires |a| == |b|
    ensures Cpl(a, b) == Cpl(b, a)
  {
    CplFacts(a, b);
    CplIs(b, a, Cpl(a, b));
  }

  /** Common prefix lengths are an ultrametric: the two smallest of the three sides are equal. */
  lemma CplTriangle(a: Key, b: Key, c: Key)
    requires |a| == |b| == |c|
    requires Cpl(a, b) <= Cpl(b, c)
    ensures Cpl(a, b) <= Cpl(a, c)
    ensures Cpl(a, b) < Cpl(b, c) ==> Cpl(a, c) == Cpl(a, b)
  {
    CplFacts(a, b);
    CplFacts(b, c);
    CplFacts(a, c);
    var r := Cpl(a, c);
    assert r < |a| ==> a[r] != c[r];
    if Cpl(a, b) < Cpl(b, c) {
      CplIs(a, c, Cpl(a, b));
    }
  }

  // ---------- the numeric order is the order of the first differing bit ----------

  lemma {:induction false} CompareAtFirstDifference(a: Key, b: Key)
    requires |a| == |b|
    ensures Compare(a, b) == (var c := Cpl(a, b); if c == |a| then 0 else if b[c] then -1 else 1)
  {
    CplFacts(a, b);
    if a != [] && a[0] == b[0] {
      CplFacts(a[1..], b[1..]);
      CompareAtFirstDifference(a[1..], b[1..]);
      var c := Cpl(a[1..], b[1..]);
      assert forall i :: 1 <= i < |a| ==> a[i] == a[1..][i - 1] && b[i] == b[1..][i - 1];
      CplIs(a, b, c + 1);
    }
  }

  lemma XorCpl(t: Key, a: Key, b: Key)
    requires |t| == |a| == |b|
    ensures Cpl(Xor(a, t), Xor(b, t)) == Cpl(a, b)
  {
    CplFacts(a, b);
    CplIs(Xor(a, t), Xor(b, t), Cpl(a, b));
  }

  /** The order the source sorts by, Compare on XOR distances, is Nearer. */
  lemma NearerIsXorOrder(t: Key, a: Key, b: Key)
    requires |t| == |a| == |b|
    ensures Compare(Xor(a, t), Xor(b, t)) < 0 <==> Nearer(t, a, b)
    ensures Compare(Xor(a, t), Xor(b, t)) == 0 <==> a == b
  {
    XorCpl(t, a, b);
    CplFacts(a, b);
    CompareAtFirstDifference(Xor(a, t), Xor(b, t));
  }

  /** Kademlia's reading of the metric: sharing a longer prefix with t is being nearer to it. */
  lemma LongerPrefixIsNearer(t: Key, a: Key, b: Key)
    requires |t| == |a| == |b|
    requires Cpl(t, a) > Cpl(t, b)
    ensures Nearer(t, a, b)
  {
    CplFacts(t, a);
    CplFacts(t, b);
    var c := Cpl(t, b);
    assert t[c] == a[c];
    CplIs(a, b, c);
  }

  // ---------- Nearer is a strict total order ----------

  lemma NearerTotal(t: Key, a: Key, b: Key)
    requires |t| == |a| == |b|
    ensures !(Nearer(t, a, b) && Nearer(t, b, a))
    ensures a != b ==> Nearer(t, a, b) || Nearer(t, b, a)
    ensures !Nearer(t, a, a)
  {
    CplSymmetric(a, b);
    CplFacts(a, b);
    CplFacts(a, a);
  }

  lemma NearerTransitive(t: Key, a: Key, b: Key, c: Key)
    requires |t| == |a| == |b| == |c|
    requires Nearer(t, a, b) && Nearer(t, b, c)
    ensures Nearer(t, a, c)
  {
    CplFacts(a, b);
    CplFacts(b, c);
    var x, y := Cpl(a, b), Cpl(b, c);
    if x < y {
      CplIs(a, c, x);
    } else {
      assert x != y;
      CplIs(a, c, y);
    }
  }
}
