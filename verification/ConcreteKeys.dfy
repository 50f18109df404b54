/** The concrete key types: machine words and byte strings, read as the bit strings of the theory. */
module ConcreteKeys {
  import opened Keys
  import opened Options

  /** The w bits of a word, most significant first. */
  ghost function Bits(k: nat, w: nat): (r: Key)
    ensures |r| == w
  {
    if w == 0 then [] else Bits(k / 2, w - 1) + [k % 2 == 1]
  }

  /** k shifted right by n. */
  function ShiftRight(k: nat, n: nat): nat {
    if n == 0 then k else ShiftRight(k / 2, n - 1)
  }

  /** The machine's exclusive or of two words of w bits. */
  function XorWord(a: nat, b: nat, w: nat): (x: nat)
    ensures x < Pow2(w)
  {
    if w == 0 then 0 else 2 * XorWord(a / 2, b / 2, w - 1) + (a % 2 + b % 2) % 2
  }

  lemma {:induction false} ValueAppend(a: Key, b: bool)
    ensures Value(a + [b]) == 2 * Value(a) + BitValue(b)
  {
    if a == [] {
      assert a + [b] == [b] && [b][1..] == [];
    } else {
      ValueAppend(a[1..], b);
      assert (a + [b])[1..] == a[1..] + [b];
      assert BitValue(a[0]) * Pow2(|a|) == 2 * (BitValue(a[0]) * Pow2(|a| - 1));
    }
  }

  /** The bits of a word stand for the word. */
  lemma {:induction false} BitsValue(k: nat, w: nat)
    requires k < Pow2(w)
    ensures Value(Bits(k, w)) == k
  {
    if w > 0 {
      BitsValue(k / 2, w - 1);
      ValueAppend(Bits(k / 2, w - 1), k % 2 == 1);
    }
  }

  /** Shifting right drops the last bits. */
  lemma {:induction false} BitsShift(k: nat, w: nat, n: nat)
    requires n <= w
    ensures Bits(k, w)[..n] == Bits(ShiftRight(k, w - n), n)
  {
    if n < w {
      BitsShift(k / 2, w - 1, n);
      assert Bits(k, w)[..n] == Bits(k / 2, w - 1)[..n];
    }
  }

  lemma {:induction false} ShiftOnce(k: nat, n: nat)
    ensures ShiftRight(k, n) / 2 == ShiftRight(k, n + 1)
  {
    if n > 0 {
      ShiftOnce(k / 2, n - 1);
    }
  }

  lemma {:induction false} ShiftBounded(k: nat, w: nat, n: nat)
    requires k < Pow2(w) && n <= w
    ensures ShiftRight(k, n) < Pow2(w - n)
  {
    if n > 0 {
      ShiftBounded(k / 2, w - 1, n - 1);
    }
  }

  lemma {:induction false} BitsInjective(a: nat, b: nat, w: nat)
    requires a < Pow2(w) && b < Pow2(w)
    ensures a == b <==> Bits(a, w) == Bits(b, w)
  {
    BitsValue(a, w);
    BitsValue(b, w);
  }

  // ---------- words: Key8 and Key32 are the cases w == 8 and w == 32 ----------

  /** Bit i of a word from the most significant: shift it to the end and mask. */
  function WordBit(k: nat, w: nat, i: nat): nat
    requires i < w
  {
    ShiftRight(k, w - 1 - i) % 2
  }

  lemma WordBitIs(k: nat, w: nat, i: nat)
    requires i < w
    ensures WordBit(k, w, i) == BitValue(Bits(k, w)[i])
  {
    BitsShift(k, w, i + 1);
    assert Bits(k, w)[i] == Bits(k, w)[..i + 1][i];
  }

  lemma {:induction false} XorWordIs(a: nat, b: nat, w: nat)
    ensures Bits(XorWord(a, b, w), w) == Xor(Bits(a, w), Bits(b, w))
  {
    if w > 0 {
      XorWordIs(a / 2, b / 2, w - 1);
      assert XorWord(a, b, w) / 2 == XorWord(a / 2, b / 2, w - 1);
    }
  }

  /** Shift both words right until they agree: what is left is the common prefix. */
  method WordCommonPrefixLength(k: nat, o: nat, w: nat) returns (r: nat)
    requires k < Pow2(w) && o < Pow2(w)
    ensures r == Cpl(Bits(k, w), Bits(o, w))
  {
    var a, b := k, o;
    var i := w;
    while i > 0
      invariant 0 <= i <= w && a == ShiftRight(k, w - i) && b == ShiftRight(o, w - i)
      invariant i < w ==> Bits(k, w)[..i + 1] != Bits(o, w)[..i + 1]
    {
      ShiftBounded(k, w, w - i);
      ShiftBounded(o, w, w - i);
      BitsInjective(a, b, i);
      BitsShift(k, w, i);
      BitsShift(o, w, i);
      if a == b {
        CplAt(Bits(k, w), Bits(o, w), i);
        return i;
      }
      ShiftOnce(k, w - i);
      ShiftOnce(o, w - i);
      a, b := a / 2, b / 2;
      i := i - 1;
      assert Bits(k, w)[..i + 1] != Bits(o, w)[..i + 1];
    }
    CplAt(Bits(k, w), Bits(o, w), 0);
    r := 0;
  }

  lemma CplAt(a: Key, b: Key, c: nat)
    requires |a| == |b| && c <= |a| && a[..c] == b[..c] && (c < |a| ==> a[..c + 1] != b[..c + 1])
    ensures Cpl(a, b) == c
  {
    assert forall i :: 0 <= i < c ==> a[i] == a[..c][i] && b[i] == b[..c][i];
    assert c < |a| ==> a[..c + 1] == a[..c] + [a[c]] && b[..c + 1] == b[..c] + [b[c]];
    CplIs(a, b, c);
  }

  method WordCompare(k: nat, o: nat, w: nat) returns (r: int)
    requires k < Pow2(w) && o < Pow2(w)
    ensures r == Compare(Bits(k, w), Bits(o, w))
  {
    BitsValue(k, w);
    BitsValue(o, w);
    r := if k < o then -1 else if k > o then 1 else 0;
  }

  // ---------- byte strings: Key256 is 32 bytes, or nil ----------

  type Byte = x: int | 0 <= x < 256

  /** A 256-bit key. Without bytes it is the zero key, as Bit reads it. */
  datatype Key256 = Key256(b: Option<seq<Byte>>) {
    ghost predicate Valid() {
      b.Some? ==> |b.value| == 32
    }
  }

  /** The bits of a byte string, first byte first. */
  ghost function BytesBits(s: seq<Byte>): (r: Key)
    ensures |r| == 8 * |s|
  {
    if s == [] then [] else Bits(s[0], 8) + BytesBits(s[1..])
  }

  function Zero(): (s: seq<Byte>)
    ensures |s| == 32
  {
    seq(32, i => 0)
  }

  ghost function KeyBits(k: Key256): (r: Key)
    requires k.Valid()
    ensures |r| == 256
  {
    BytesBits(if k.b.Some? then k.b.value else Zero())
  }

  lemma {:induction false} BytesBitsAt(s: seq<Byte>, q: nat, r: nat)
    requires q < |s| && r < 8
    ensures BytesBits(s)[8 * q + r] == Bits(s[q], 8)[r]
  {
    hide Bits;
    if q > 0 {
      BytesBitsAt(s[1..], q - 1, r);
      assert BytesBits(s)[8 * q + r] == BytesBits(s[1..])[8 * (q - 1) + r];
    }
  }

  lemma PowersOfEight()
    ensures Pow2(8) == 256
  {
    assert Pow2(4) == 16;
  }

  /** The bit of a key: byte i / 8 masked with a one shifted left by 7 - i % 8. */
  function Bit(k: Key256, i: nat): nat
    requires k.Valid() && i < 256
  {
    if k.b.None? then 0 else
    if ShiftRight(k.b.value[i / 8], 7 - i % 8) % 2 == 0 then 0 else 1
  }

  lemma {:induction false} ZeroBits(w: nat)
    ensures forall i :: 0 <= i < w ==> !Bits(0, w)[i]
  {
    if w > 0 {
      ZeroBits(w - 1);
    }
  }

  lemma BitIs(k: Key256, i: nat)
    requires k.Valid() && i < 256
    ensures Bit(k, i) == BitValue(KeyBits(k)[i])
  {
    hide Bits, BytesBits, ShiftRight;
    var s := if k.b.Some? then k.b.value else Zero();
    var q, r := i / 8, i % 8;
    BytesBitsAt(s, q, r);
    WordBitIs(s[q], 8, r);
    ZeroBits(8);
    assert 8 * q + r == i;
  }

  lemma XorConcat(p: Key, q: Key, s: Key, t: Key)
    requires |p| == |q| && |s| == |t|
    ensures Xor(p + s, q + t) == Xor(p, q) + Xor(s, t)
  {}

  lemma {:induction false} XorBytesIs(x: seq<Byte>, a: seq<Byte>, b: seq<Byte>)
    requires |x| == |a| == |b| && forall j :: 0 <= j < |x| ==> x[j] == XorWord(a[j], b[j], 8)
    ensures BytesBits(x) == Xor(BytesBits(a), BytesBits(b))
  {
    hide Bits, XorWord, Xor;
    if x == [] {
      XorConcat([], [], [], []);
    } else {
      XorBytesIs(x[1..], a[1..], b[1..]);
      XorWordIs(a[0], b[0], 8);
      XorConcat(Bits(a[0], 8), Bits(b[0], 8), BytesBits(a[1..]), BytesBits(b[1..]));
    }
  }

  lemma {:induction false} ZeroBytes(s: seq<Byte>)
    requires forall j :: 0 <= j < |s| ==> s[j] == 0
    ensures forall i :: 0 <= i < 8 * |s| ==> !BytesBits(s)[i]
  {
    if s != [] {
      ZeroBytes(s[1..]);
      ZeroBits(8);
      hide Bits;
    }
  }

  /** The exclusive or of two keys; a nil key counts as zero here. */
  method XorKeys(k: Key256, o: Key256) returns (r: Key256)
    requires k.Valid() && o.Valid()
    ensures r.Valid() && KeyBits(r) == Xor(KeyBits(k), KeyBits(o))
  {
    hide BytesBits, Bits, XorWord;
    ZeroBytes(Zero());
    var xored := new Byte[32](i => 0);
    if k.b.Some? && o.b.Some? {
      PowersOfEight();
      for i := 0 to 32
        invariant forall j :: 0 <= j < i ==> xored[j] == XorWord(k.b.value[j], o.b.value[j], 8)
      {
        xored[i] := XorWord(k.b.value[i], o.b.value[i], 8);
      }
      XorBytesIs(xored[..], k.b.value, o.b.value);
    } else if k.b.Some? {
      forall i | 0 <= i < 32 {
        xored[i] := k.b.value[i];
      }
      assert xored[..] == k.b.value;
    } else if o.b.Some? {
      forall i | 0 <= i < 32 {
        xored[i] := o.b.value[i];
      }
      assert xored[..] == o.b.value;
    } else {
      assert xored[..] == Zero();
    }
    r := Key256(Some(xored[..]));
  }

  // ---------- the common prefix of byte strings ----------

  /** The position of the highest one in a word. */
  function FloorLog2(x: nat): (e: nat)
    requires x > 0
    ensures Pow2(e) <= x < Pow2(e + 1)
  {
    if x == 1 then 0 else 1 + FloorLog2(x / 2)
  }

  /** The highest bit in which two words differ is the highest one of their exclusive or. */
  lemma {:induction false} WordCpl(a: nat, b: nat, w: nat)
    ensures XorWord(a, b, w) == 0 <==> Bits(a, w) == Bits(b, w)
    ensures XorWord(a, b, w) != 0 ==>
      FloorLog2(XorWord(a, b, w)) < w && Cpl(Bits(a, w), Bits(b, w)) == w - 1 - FloorLog2(XorWord(a, b, w))
  {
    hide Cpl;
    if w > 0 {
      WordCpl(a / 2, b / 2, w - 1);
      var p, q := Bits(a / 2, w - 1), Bits(b / 2, w - 1);
      CplOfConcat(p, q, [a % 2 == 1], [b % 2 == 1]);
      CplOfOne(a % 2 == 1, b % 2 == 1);
      if XorWord(a, b, w) > 0 {
        LogStep(XorWord(a / 2, b / 2, w - 1), (a % 2 + b % 2) % 2);
      }
      AppendEqual(p, q, a % 2 == 1, b % 2 == 1);
      hide Bits;
    }
  }

  lemma CplOfOne(x: bool, y: bool)
    ensures Cpl([x], [y]) == if x == y then 1 else 0
  {
    CplIs([x], [y], if x == y then 1 else 0);
  }

  lemma LogStep(y: nat, r: nat)
    requires r < 2 && 2 * y + r > 0
    ensures FloorLog2(2 * y + r) == if y == 0 then 0 else 1 + FloorLog2(y)
  {
    assert (2 * y + r) / 2 == y;
  }

  lemma AppendEqual(p: Key, q: Key, x: bool, y: bool)
    requires |p| == |q|
    ensures p + [x] == q + [y] <==> p == q && x == y
  {
    assert (p + [x])[..|p|] == p && (q + [y])[..|q|] == q && (p + [x])[|p|] == x && (q + [y])[|q|] == y;
  }

  /** Where the front parts differ, they decide the common prefix; else the back parts do. */
  lemma CplOfConcat(a: Key, b: Key, s: Key, t: Key)
    requires |a| == |b| && |s| == |t|
    ensures Cpl(a + s, b + t) == if a == b then |a| + Cpl(s, t) else Cpl(a, b)
  {
    CplFacts(a, b);
    CplFacts(s, t);
    CplIs(a + s, b + t, if a == b then |a| + Cpl(s, t) else Cpl(a, b));
  }

  /** Two byte strings share their equal bytes and what the first different ones share. */
  lemma {:induction false} BytesCpl(a: seq<Byte>, b: seq<Byte>, i: nat)
    requires |a| == |b| && i < |a| && a[..i] == b[..i] && a[i] != b[i]
    ensures var c := Cpl(Bits(a[i], 8), Bits(b[i], 8)); c < 8 && Cpl(BytesBits(a), BytesBits(b)) == 8 * i + c
  {
    hide Bits, Cpl;
    CplOfConcat(Bits(a[0], 8), Bits(b[0], 8), BytesBits(a[1..]), BytesBits(b[1..]));
    if i == 0 {
      PowersOfEight();
      BitsInjective(a[0], b[0], 8);
      CplFacts(Bits(a[0], 8), Bits(b[0], 8));
    } else {
      assert a[..i][0] == a[0] && b[..i][0] == b[0];
      assert a[1..][..i - 1] == a[..i][1..] && b[1..][..i - 1] == b[..i][1..];
      BytesCpl(a[1..], b[1..], i - 1);
    }
  }

  /** The first different bytes decide which string stands for the smaller number. */
  lemma FirstByteDecides(a: seq<Byte>, b: seq<Byte>, i: nat)
    requires |a| == |b| && i < |a| && a[..i] == b[..i] && a[i] != b[i]
    ensures Compare(BytesBits(a), BytesBits(b)) == if a[i] < b[i] then -1 else 1
  {
    hide Bits, Cpl, BytesBits, Value;
    BytesCpl(a, b, i);
    var c := Cpl(Bits(a[i], 8), Bits(b[i], 8));
    BytesBitsAt(b, i, c);
    CompareAtFirstDifference(BytesBits(a), BytesBits(b));
    CompareAtFirstDifference(Bits(a[i], 8), Bits(b[i], 8));
    PowersOfEight();
    BitsValue(a[i], 8);
    BitsValue(b[i], 8);
  }

  /** Byte by byte to the first that differs, then the logarithm of the difference. A nil key shares all
      256 bits with every key. */
  method CommonPrefixLength(k: Key256, o: Key256) returns (r: nat)
    requires k.Valid() && o.Valid()
    ensures k.b.None? || o.b.None? ==> r == 256
    ensures r == Cpl(KeyBits(k), KeyBits(o)) <==> (k.b.Some? && o.b.Some?) || KeyBits(k) == KeyBits(o)
  {
    if k.b.None? || o.b.None? {
      CplFacts(KeyBits(k), KeyBits(o));
      return 256;
    }
    hide Bits, Cpl, BytesBits, XorWord, FloorLog2;
    var a, b := k.b.value, o.b.value;
    for i := 0 to 32
      invariant a[..i] == b[..i]
    {
      var x := XorWord(a[i], b[i], 8);
      WordCpl(a[i], b[i], 8);
      PowersOfEight();
      BitsInjective(a[i], b[i], 8);
      if x != 0 {
        BytesCpl(a, b, i);
        return 8 * i + 7 - FloorLog2(x);
      }
      assert a[..i + 1] == a[..i] + [a[i]] && b[..i + 1] == b[..i] + [b[i]];
    }
    assert a == b by {
      assert a[..32] == a && b[..32] == b;
    }
    CplFacts(KeyBits(k), KeyBits(o));
    r := 256;
  }

  /** bytes.Compare on strings of one length. */
  method CompareBytes(a: seq<Byte>, b: seq<Byte>) returns (r: int)
    requires |a| == |b|
    ensures r == Compare(BytesBits(a), BytesBits(b))
  {
    hide Bits, Cpl, BytesBits, Value;
    for i := 0 to |a|
      invariant a[..i] == b[..i]
    {
      if a[i] != b[i] {
        FirstByteDecides(a, b, i);
        return if a[i] < b[i] then -1 else 1;
      }
      assert a[..i + 1] == a[..i] + [a[i]] && b[..i + 1] == b[..i] + [b[i]];
    }
    assert a == b by {
      assert a[..|a|] == a && b[..|b|] == b;
    }
    r := 0;
  }

  /** Compares with a nil key as if it were zero, but with the sides exchanged when it is the second one.
      Two nil keys cannot be compared. */
  method CompareKeys(k: Key256, o: Key256) returns (r: int)
    requires k.Valid() && o.Valid() && (k.b.Some? || o.b.Some?)
    ensures r == Compare(KeyBits(k), KeyBits(o)) <==> o.b.Some? || KeyBits(k) == KeyBits(o)
    ensures o.b.None? ==> r == Compare(KeyBits(o), KeyBits(k))
  {
    hide BytesBits, Value;
    if k.b.Some? && o.b.Some? {
      r := CompareBytes(k.b.value, o.b.value);
      return;
    }
    CompareZero(KeyBits(k), KeyBits(o));
    if k.b.None? {
      r := CompareBytes(Zero(), o.b.value);
      return;
    }
    r := CompareBytes(Zero(), k.b.value);
  }

  lemma CompareZero(a: Key, b: Key)
    requires |a| == |b|
    ensures Compare(a, b) == 0 <==> a == b
    ensures Compare(b, a) == -Compare(a, b)
  {
    hide Value;
    CompareAtFirstDifference(a, b);
    CplFacts(a, b);
  }

  /** A nil key against a key whose first byte is not zero: the two differ in the first eight bits and the nil key
      is the smaller one, but they are said to share 256 bits and the nil key to be the greater one. */
  method NilMisread() returns (k: Key256, o: Key256, c: nat, r: int)
    ensures k.Valid() && o.Valid() && k.b.Some? && o.b.None?
    ensures c == 256 && Cpl(KeyBits(k), KeyBits(o)) < 8
    ensures r == -1 && Compare(KeyBits(k), KeyBits(o)) == 1
  {
    hide Bits, BytesBits, Value, Cpl;
    var s := Zero()[0 := 128];
    k, o := Key256(Some(s)), Key256(None);
    BytesCpl(s, Zero(), 0);
    FirstByteDecides(s, Zero(), 0);
    CompareZero(KeyBits(k), KeyBits(o));
    c := CommonPrefixLength(k, o);
    r := CompareKeys(k, o);
  }
}
