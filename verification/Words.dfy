/** The 512-bit big-endian words, their word-wise comparisons and their hash (qrvmc.hpp). */
module Words {
  import opened Bits

  type word = w: seq<byte> | |w| == 64 witness Zeros(64)

  const ZERO: word := Zeros(64)

  function Zeros(n: nat): (s: seq<byte>)
    ensures |s| == n && forall i :: 0 <= i < n ==> s[i] == 0
  {
    if n == 0 then [] else Zeros(n - 1) + [0]
  }

  // ---------- the number that a big-endian byte string denotes ----------

  ghost function Value(s: seq<byte>): nat {
    if s == [] then 0 else Digit(Value(s[..|s| - 1]), s[|s| - 1])
  }

  function Digit(v: nat, b: nat): nat {
    256 * v + b
  }

  ghost function Radix(n: nat): (r: nat)
    ensures r > 0
  {
    if n == 0 then 1 else 256 * Radix(n - 1)
  }

  lemma {:induction false} ValueConcat(s: seq<byte>, t: seq<byte>)
    ensures Value(s + t) == Value(s) * Radix(|t|) + Value(t)
    decreases |t|
  {
    if t == [] {
      assert s + t == s;
    } else {
      var t' := t[..|t| - 1];
      assert (s + t)[..|s + t| - 1] == s + t';
      ValueConcat(s, t');
      assert Value(s) * Radix(|t|) == Value(s) * Radix(|t'|) * 256;
    }
  }

  lemma {:induction false} ValueBound(s: seq<byte>)
    ensures Value(s) < Radix(|s|)
  {
    if s != [] {
      ValueBound(s[..|s| - 1]);
    }
  }

  lemma Distribute(a: nat, b: nat, w: nat)
    ensures (a + b) * w == a * w + b * w
    ensures a * w >= 0
  {
  }

  lemma HighDigitsDecide(a: nat, b: nat, w: nat, r: nat, s: nat)
    requires a < b && r < w
    ensures a * w + r < b * w + s
  {
    Distribute(a, b - a, w);
    Distribute(b - a - 1, 1, w);
  }

  /** A difference in the leading parts decides the order whatever follows. */
  lemma LeadingPartsDecide(x: seq<byte>, y: seq<byte>, r: seq<byte>, s: seq<byte>)
    requires |r| == |s| && Value(x) < Value(y)
    ensures Value(x + r) < Value(y + s)
  {
    ValueConcat(x, r);
    ValueConcat(y, s);
    ValueBound(r);
    HighDigitsDecide(Value(x), Value(y), Radix(|r|), Value(r), Value(s));
  }

  lemma {:induction false} LeadingZeros(n: nat, s: seq<byte>)
    ensures Value(Zeros(n) + s) == Value(s)
    decreases n
  {
    if n == 0 {
      assert Zeros(n) + s == s;
    } else {
      assert Zeros(n) + s == Zeros(n - 1) + ([0] + s);
      LeadingZeros(n - 1, [0] + s);
      ValueConcat([0], s);
      assert Value([0]) == 0;
    }
  }

  lemma ValueOfByte(b: byte)
    ensures Value([b]) == b
  {
    assert [b][..0] == [];
  }

  /** Equally long byte strings denote the same number only when they are equal. */
  lemma {:induction false} ValueInjective(s: seq<byte>, t: seq<byte>)
    requires |s| == |t| && Value(s) == Value(t)
    ensures s == t
  {
    if s != [] {
      hide Value, Digit;
      var (s', x) := (s[..|s| - 1], s[|s| - 1]);
      var (t', y) := (t[..|t| - 1], t[|t| - 1]);
      LastDigit(s);
      LastDigit(t);
      DigitInjective(Value(s'), x, Value(t'), y);
      ValueInjective(s', t');
      assert s == s' + [x] && t == t' + [y];
    }
  }

  lemma LastDigit(s: seq<byte>)
    requires s != []
    ensures Value(s) == Digit(Value(s[..|s| - 1]), s[|s| - 1])
  {
  }

  lemma DigitInjective(v: nat, b: byte, w: nat, c: byte)
    requires Digit(v, b) == Digit(w, c)
    ensures v == w && b == c
  {
  }

  // ---------- 64-bit loads ----------

  function Load64be(d: seq<byte>): nat
    requires |d| == 8
  {
    Or(Or(Or(Or(Or(Or(Or(Shl(d[0], 56), Shl(d[1], 48)), Shl(d[2], 40)), Shl(d[3], 32)),
      Shl(d[4], 24)), Shl(d[5], 16)), Shl(d[6], 8)), d[7])
  }

  function Load64le(d: seq<byte>): nat
    requires |d| == 8
  {
    Or(Or(Or(Or(Or(Or(Or(d[0], Shl(d[1], 8)), Shl(d[2], 16)), Shl(d[3], 24)),
      Shl(d[4], 32)), Shl(d[5], 40)), Shl(d[6], 48)), Shl(d[7], 56))
  }

  /** The big-endian load is the number its eight bytes denote. */
  lemma Load64beValue(d: seq<byte>)
    requires |d| == 8
    ensures Load64be(d) == Value(d) < TWO64
  {
    hide Or, Shl, Value;
    LoadEnds(d);
    var h := LoadNext(d, 1, Shl(d[0], 56));
    h := LoadNext(d, 2, h);
    h := LoadNext(d, 3, h);
    h := LoadNext(d, 4, h);
    h := LoadNext(d, 5, h);
    h := LoadNext(d, 6, h);
    h := LoadNext(d, 7, h);
  }

  lemma LoadEnds(d: seq<byte>)
    requires d != []
    ensures Value(d[..1]) == d[0]
    ensures Shl(d[|d| - 1], 0) == d[|d| - 1] && Shl(Value(d[..|d|]), 0) == Value(d) < Radix(|d|)
    ensures Radix(4) == 0x1_0000_0000 && Radix(8) == TWO64
  {
    assert d[..|d|] == d && d[..1] == [d[0]];
    ValueOfByte(d[0]);
    ValueBound(d);
    RadixIsPow2(8);
    RadixIsPow2(4);
    PowersOfTwo();
  }

  lemma LoadNext(d: seq<byte>, i: nat, h: nat) returns (h': nat)
    requires 0 < i < |d| && h == Shl(Value(d[..i]), 8 * (|d| - i))
    ensures h' == Or(h, Shl(d[i], 8 * (|d| - 1 - i))) == Shl(Value(d[..i + 1]), 8 * (|d| - 1 - i))
  {
    OrNextByte(Value(d[..i]), d[i], 8 * (|d| - 1 - i));
    assert d[..i + 1][..i] == d[..i];
    h' := Or(h, Shl(d[i], 8 * (|d| - 1 - i)));
  }

  lemma OrNextByte(v: nat, b: byte, k: nat)
    ensures Or(Shl(v, k + 8), Shl(b, k)) == Shl(Digit(v, b), k)
  {
    Pow2Plus8(k);
    HighDigitsDecide(b, 256, Pow2(k), 0, 0);
    OrShifted(v, Shl(b, k), k + 8);
    ShiftedDigit(v, b, Pow2(k));
  }

  lemma ShiftedDigit(v: nat, b: nat, p: nat)
    ensures v * (256 * p) + b * p == Digit(v, b) * p
  {
    Distribute(256 * v, b, p);
  }

  lemma {:induction false} RadixIsPow2(n: nat)
    ensures Radix(n) == Pow2(8 * n)
  {
    if n != 0 {
      RadixIsPow2(n - 1);
      Pow2Plus8(8 * (n - 1));
    }
  }

  // ---------- little-endian loads and equality ----------

  function Reversed(s: seq<byte>): (r: seq<byte>)
    ensures |r| == |s|
  {
    if s == [] then [] else [s[|s| - 1]] + Reversed(s[..|s| - 1])
  }

  lemma {:induction false} ReversedInjective(s: seq<byte>, t: seq<byte>)
    requires Reversed(s) == Reversed(t)
    ensures s == t
  {
    assert |s| == |Reversed(s)| == |Reversed(t)| == |t|;
    if s != [] {
      var s', t' := s[..|s| - 1], t[..|t| - 1];
      assert Reversed(s') == Reversed(s)[1..] == Reversed(t)[1..] == Reversed(t');
      ReversedInjective(s', t');
      assert Reversed(s)[0] == s[|s| - 1] && Reversed(t)[0] == t[|t| - 1];
      assert s == s' + [s[|s| - 1]] && t == t' + [t[|t| - 1]];
    }
  }

  /** The little-endian load is the number its reversed bytes denote. */
  lemma Load64leValue(d: seq<byte>)
    requires |d| == 8
    ensures Load64le(d) == Value(Reversed(d)) < TWO64
  {
    hide Or, Shl, Value, Reversed;
    LoadLeEnds(d);
    var h := LoadLeNext(d, 1, d[0]);
    h := LoadLeNext(d, 2, h);
    h := LoadLeNext(d, 3, h);
    h := LoadLeNext(d, 4, h);
    h := LoadLeNext(d, 5, h);
    h := LoadLeNext(d, 6, h);
    h := LoadLeNext(d, 7, h);
  }

  lemma LoadLeEnds(d: seq<byte>)
    requires |d| == 8
    ensures Value(Reversed(d[..1])) == d[0]
    ensures d[..8] == d && Value(Reversed(d)) < TWO64
  {
    assert Reversed(d[..1]) == [d[0]];
    ValueBound(Reversed(d));
    RadixIsPow2(8);
    PowersOfTwo();
  }

  lemma LoadLeNext(d: seq<byte>, i: nat, h: nat) returns (h': nat)
    requires 0 < i < |d| && h == Value(Reversed(d[..i]))
    ensures h' == Or(h, Shl(d[i], 8 * i)) == Value(Reversed(d[..i + 1]))
  {
    assert d[..i + 1][..i] == d[..i];
    ValueConcat([d[i]], Reversed(d[..i]));
    ValueBound(Reversed(d[..i]));
    RadixIsPow2(i);
    OrShifted(d[i], h, 8 * i);
    h' := Or(h, Shl(d[i], 8 * i));
  }

  function Limb(w: word, i: nat): seq<byte>
    requires i < 8
  {
    w[8 * i..8 * i + 8]
  }

  /** The "equal to" operator: eight little-endian loads. */
  predicate Equal(a: word, b: word) {
    forall i: nat :: i < 8 ==> Load64le(Limb(a, i)) == Load64le(Limb(b, i))
  }

  predicate IsZero(a: word) {
    Equal(a, ZERO)
  }

  lemma Load64leInjective(d: seq<byte>, e: seq<byte>)
    requires |d| == |e| == 8 && Load64le(d) == Load64le(e)
    ensures d == e
  {
    hide Load64le, Value, Reversed;
    Load64leValue(d);
    Load64leValue(e);
    ValueInjective(Reversed(d), Reversed(e));
    ReversedInjective(d, e);
  }

  /** Word-wise equality is equality of the bytes. */
  lemma EqualIsEquality(a: word, b: word)
    ensures Equal(a, b) <==> a == b
  {
    hide Load64le;
    if Equal(a, b) {
      forall k | 0 <= k < 64
        ensures a[k] == b[k]
      {
        var i := k / 8;
        Load64leInjective(Limb(a, i), Limb(b, i));
        assert Limb(a, i)[k - 8 * i] == Limb(b, i)[k - 8 * i];
      }
    }
  }

  // ---------- order ----------

  ghost predicate LexLess(a: seq<byte>, b: seq<byte>)
    requires |a| == |b|
  {
    exists k :: 0 <= k < |a| && a[..k] == b[..k] && a[k] < b[k]
  }

  /** The order of equally long byte strings, bytes first to last, is the order of their numbers. */
  lemma LexIsNumeric(a: seq<byte>, b: seq<byte>)
    requires |a| == |b|
    ensures LexLess(a, b) <==> Value(a) < Value(b)
  {
    hide Value;
    if LexLess(a, b) {
      var k :| 0 <= k < |a| && a[..k] == b[..k] && a[k] < b[k];
      FirstDifferenceDecides(a, b, k);
    } else if a != b {
      var k := FirstDifference(a, b);
      FirstDifferenceDecides(b, a, k);
    }
  }

  lemma FirstDifferenceDecides(a: seq<byte>, b: seq<byte>, k: nat)
    requires k < |a| == |b| && a[..k] == b[..k] && a[k] < b[k]
    ensures Value(a) < Value(b)
  {
    hide Value;
    ValueOfByte(a[k]);
    ValueOfByte(b[k]);
    SamePrefixOrder(a[..k], [a[k]], [b[k]]);
    LeadingPartsDecide(a[..k] + [a[k]], a[..k] + [b[k]], a[k + 1..], b[k + 1..]);
    assert a == a[..k] + [a[k]] + a[k + 1..];
    assert b == a[..k] + [b[k]] + b[k + 1..];
  }

  lemma FirstDifference(a: seq<byte>, b: seq<byte>) returns (k: nat)
    requires |a| == |b| && a != b
    ensures k < |a| && a[..k] == b[..k] && a[k] != b[k]
  {
    k := 0;
    while k < |a| && a[k] == b[k]
      invariant k <= |a| && a[..k] == b[..k]
    {
      k := k + 1;
    }
    assert a[..|a|] == a && b[..|b|] == b;
  }

  /** The "less than" operator: the first pair of distinct big-endian loads decides.
      It is the order of the 512-bit numbers, and the order of the bytes. */
  method Less(a: word, b: word) returns (less: bool)
    ensures less <==> Value(a) < Value(b)
    ensures less <==> LexLess(a, b)
  {
    hide Load64be, Value, LexLess;
    LexIsNumeric(a, b);
    var i := 0;
    while i < 64
      invariant 0 <= i <= 64 && i % 8 == 0
      invariant a[..i] == b[..i]
    {
      var va := Load64be(a[i..i + 8]);
      var vb := Load64be(b[i..i + 8]);
      if va != vb {
        LimbDecides(a, b, i);
        LimbDecides(b, a, i);
        return va < vb;
      }
      SameLimb(a, b, i);
      i := i + 8;
    }
    assert a == b by { assert a[..64] == a && b[..64] == b; }
    return false;
  }

  lemma SamePrefixOrder(p: seq<byte>, x: seq<byte>, y: seq<byte>)
    requires |x| == |y| && Value(x) < Value(y)
    ensures Value(p + x) < Value(p + y)
  {
    ValueConcat(p, x);
    ValueConcat(p, y);
  }

  lemma LimbDecides(a: word, b: word, i: nat)
    requires i <= 56 && a[..i] == b[..i]
    ensures Load64be(a[i..i + 8]) < Load64be(b[i..i + 8]) ==> Value(a) < Value(b)
  {
    hide Load64be, Value;
    var x, y := a[i..i + 8], b[i..i + 8];
    Load64beValue(x);
    Load64beValue(y);
    if Value(x) < Value(y) {
      SamePrefixOrder(a[..i], x, y);
      LeadingPartsDecide(a[..i] + x, b[..i] + y, a[i + 8..], b[i + 8..]);
      assert a == a[..i] + x + a[i + 8..] && b == b[..i] + y + b[i + 8..];
    }
  }

  lemma SameLimb(a: word, b: word, i: nat)
    requires i <= 56 && a[..i] == b[..i] && Load64be(a[i..i + 8]) == Load64be(b[i..i + 8])
    ensures a[..i + 8] == b[..i + 8]
  {
    hide Load64be, Value;
    Load64beValue(a[i..i + 8]);
    Load64beValue(b[i..i + 8]);
    ValueInjective(a[i..i + 8], b[i..i + 8]);
    assert a[..i + 8] == a[..i] + a[i..i + 8] && b[..i + 8] == b[..i] + b[i..i + 8];
  }

  // ---------- words made of integers ----------

  /** The n low bytes of v, most significant first: each is v shifted right and truncated. */
  function LowBytes(v: nat, n: nat): (s: seq<byte>)
    ensures |s| == n
  {
    if n == 0 then [] else [Shr(v, 8 * (n - 1)) % 0x100] + LowBytes(v, n - 1)
  }

  lemma {:induction false} LowBytesShift(v: nat, n: nat)
    requires n != 0
    ensures LowBytes(v, n) == LowBytes(v / 0x100, n - 1) + [v % 0x100]
  {
    if n != 1 {
      LowBytesShift(v, n - 1);
      ShrPlus8(v, 8 * (n - 2));
    }
  }

  lemma {:induction false} LowBytesValue(v: nat, n: nat)
    requires v < Radix(n)
    ensures Value(LowBytes(v, n)) == v
    decreases n
  {
    if n != 0 {
      LowBytesShift(v, n);
      LowBytesValue(v / 0x100, n - 1);
      assert LowBytes(v, n)[..n - 1] == LowBytes(v / 0x100, n - 1);
    }
  }

  /** The converting constructor from a 64-bit integer. */
  function FromUint64(v: uint64): word {
    Zeros(56) + LowBytes(v, 8)
  }

  lemma FromUint64Value(v: uint64)
    ensures Value(FromUint64(v)) == v
  {
    PowersOfTwo();
    RadixIsPow2(8);
    LowBytesValue(v, 8);
    LeadingZeros(56, LowBytes(v, 8));
  }

  // ---------- hash ----------

  const FNV_PRIME: int := 0x100000001b3
  const FNV_OFFSET_BASIS: uint64 := 0xcbf29ce484222325

  function Fnv1aBy64(h: uint64, x: uint64): uint64 {
    Xor(h, x) * FNV_PRIME % TWO64
  }

  function Fold(h: uint64, xs: seq<uint64>): uint64
    decreases xs
  {
    if xs == [] then h else Fold(Fnv1aBy64(h, xs[0]), xs[1..])
  }

  function LoadedLimb(w: word, i: nat): (r: uint64)
    requires i < 8
    ensures r == Load64le(Limb(w, i))
  {
    hide Load64le;
    Load64leValue(Limb(w, i));
    Load64le(Limb(w, i))
  }

  function Limbs(w: word): (r: seq<uint64>) {
    [LoadedLimb(w, 0), LoadedLimb(w, 1), LoadedLimb(w, 2), LoadedLimb(w, 3),
     LoadedLimb(w, 4), LoadedLimb(w, 5), LoadedLimb(w, 6), LoadedLimb(w, 7)]
  }

  function Hash(w: word): uint64 {
    Fold(FNV_OFFSET_BASIS, Limbs(w))
  }

  /** The prime is odd, so multiplying by it modulo 2^64 can be undone. */
  lemma PrimeInvertible(x: uint64)
    ensures x * FNV_PRIME % TWO64 * 0xce965057aff6957b % TWO64 == x
  {
    assert FNV_PRIME * 0xce965057aff6957b == 887285111055 * TWO64 + 1;
    var y := x * FNV_PRIME;
    assert y % TWO64 == y - y / TWO64 * TWO64;
    assert y * 0xce965057aff6957b == x + x * 887285111055 * TWO64;
    ModOffset(x, x * 887285111055 - y / TWO64 * 0xce965057aff6957b);
  }

  lemma ModOffset(x: uint64, k: int)
    ensures (x + k * TWO64) % TWO64 == x
  {
  }

  /** Each step is a bijection of the 64-bit values, in either argument. */
  lemma StepInjective(h: uint64, g: uint64, x: uint64, y: uint64)
    ensures Fnv1aBy64(h, x) == Fnv1aBy64(g, x) ==> h == g
    ensures Fnv1aBy64(h, x) == Fnv1aBy64(h, y) ==> x == y
  {
    XorInjective(h, g, x);
    XorInjective(g, h, x);
    XorInjective(x, y, h);
    XorInjective(y, x, h);
    XorCommutes(h, x);
    XorCommutes(h, y);
    if Fnv1aBy64(h, x) == Fnv1aBy64(g, x) {
      ProductInjective(Xor(h, x), Xor(g, x));
    }
    if Fnv1aBy64(h, x) == Fnv1aBy64(h, y) {
      ProductInjective(Xor(h, x), Xor(h, y));
    }
  }

  lemma ProductInjective(x: uint64, y: uint64)
    requires x * FNV_PRIME % TWO64 == y * FNV_PRIME % TWO64
    ensures x == y
  {
    PrimeInvertible(x);
    PrimeInvertible(y);
  }

  lemma {:induction false} FoldInjective(h: uint64, g: uint64, xs: seq<uint64>)
    requires Fold(h, xs) == Fold(g, xs)
    ensures h == g
    decreases xs
  {
    if xs != [] {
      hide Fnv1aBy64;
      FoldInjective(Fnv1aBy64(h, xs[0]), Fnv1aBy64(g, xs[0]), xs[1..]);
      StepInjective(h, g, xs[0], xs[0]);
    }
  }

  lemma {:induction false} FoldSeparates(h: uint64, xs: seq<uint64>, ys: seq<uint64>, k: nat)
    requires k < |xs| == |ys| && xs[k] != ys[k]
    requires forall i :: 0 <= i < |xs| && i != k ==> xs[i] == ys[i]
    ensures Fold(h, xs) != Fold(h, ys)
    decreases k
  {
    hide Fnv1aBy64;
    if k == 0 {
      StepInjective(h, h, xs[0], ys[0]);
      assert xs[1..] == ys[1..];
      if Fold(h, xs) == Fold(h, ys) {
        FoldInjective(Fnv1aBy64(h, xs[0]), Fnv1aBy64(h, ys[0]), xs[1..]);
      }
    } else {
      FoldSeparates(Fnv1aBy64(h, xs[0]), xs[1..], ys[1..], k - 1);
    }
  }

  /** Two keys that differ in exactly one of their eight 64-bit limbs never collide. */
  lemma HashSeparates(a: word, b: word, k: nat)
    requires k < 8 && Limb(a, k) != Limb(b, k)
    requires forall j: nat :: j < 8 && j != k ==> Limb(a, j) == Limb(b, j)
    ensures Hash(a) != Hash(b)
  {
    hide Load64le, Fold;
    forall j: nat | j < 8 && j != k
      ensures Limbs(a)[j] == Limbs(b)[j]
    {
      assert Limb(a, j) == Limb(b, j);
      assert LoadedLimb(a, j) == LoadedLimb(b, j);
    }
    if Limbs(a)[k] == Limbs(b)[k] {
      Load64leInjective(Limb(a, k), Limb(b, k));
    }
    FoldSeparates(FNV_OFFSET_BASIS, Limbs(a), Limbs(b), k);
  }

  /** The hash takes the eight words first to last, from the offset basis on. */
  lemma HashNested(w: word)
    ensures
      var h4 := Fnv1aBy64(Fnv1aBy64(Fnv1aBy64(Fnv1aBy64(FNV_OFFSET_BASIS,
        LoadedLimb(w, 0)), LoadedLimb(w, 1)), LoadedLimb(w, 2)), LoadedLimb(w, 3));
      Hash(w) == Fnv1aBy64(Fnv1aBy64(Fnv1aBy64(Fnv1aBy64(h4,
        LoadedLimb(w, 4)), LoadedLimb(w, 5)), LoadedLimb(w, 6)), LoadedLimb(w, 7))
  {
    hide LoadedLimb, Fnv1aBy64, Fold;
    var xs := Limbs(w);
    var h4 := FoldFour(FNV_OFFSET_BASIS, xs, 0);
    var h8 := FoldFour(h4, xs, 4);
  }

  lemma FoldFour(h: uint64, xs: seq<uint64>, i: nat) returns (h4: uint64)
    requires i + 4 <= |xs|
    ensures h4 == Fnv1aBy64(Fnv1aBy64(Fnv1aBy64(Fnv1aBy64(h, xs[i]), xs[i + 1]), xs[i + 2]), xs[i + 3])
    ensures Fold(h, xs[i..]) == Fold(h4, xs[i + 4..])
    ensures Fold(h4, []) == h4 && xs[|xs|..] == [] && xs[0..] == xs
  {
    hide Fnv1aBy64, Fold;
    h4 := FoldNext(h, xs, i);
    h4 := FoldNext(h4, xs, i + 1);
    h4 := FoldNext(h4, xs, i + 2);
    h4 := FoldNext(h4, xs, i + 3);
    FoldNone(h4);
  }

  lemma FoldNext(h: uint64, xs: seq<uint64>, i: nat) returns (h': uint64)
    requires i < |xs|
    ensures h' == Fnv1aBy64(h, xs[i]) && Fold(h, xs[i..]) == Fold(h', xs[i + 1..])
  {
    hide Fnv1aBy64;
    h' := Fnv1aBy64(h, xs[i]);
    assert xs[i..][1..] == xs[i + 1..];
  }

  lemma FoldNone(h: uint64)
    ensures Fold(h, []) == h
  {
  }

  /** A step combines the word with exclusive or before it multiplies. */
  lemma StepAbsorbs(h: uint64, x: uint64)
    ensures Xor(h, x) < TWO64 && Fnv1aBy64(h, x) == Fnv1aBy64(Xor(h, x), 0)
  {
    XorInjective(h, h, x);
    XorZero(Xor(h, x));
  }

  lemma XorZero(a: nat)
    ensures Xor(a, 0) == a
  {
  }

  lemma StepTo(h: uint64, x: uint64, y: uint64, q: nat, h': uint64)
    requires Xor(h, x) == y && y * FNV_PRIME == q * TWO64 + h'
    ensures Fnv1aBy64(h, x) == h'
  {
    ModOffset(h', q);
  }

  /** The hash of zero. */
  lemma HashOfZero()
    ensures Hash(ZERO) == 0xa8c7f832281a39c5
  {
    hide Hash, Value, Zeros, Reversed, Load64le, Fnv1aBy64, LoadedLimb;
    forall i: nat | i < 8
      ensures LoadedLimb(ZERO, i) == 0
    {
      ZeroLimb(i);
    }
    HashNested(ZERO);
    StepTo(0xcbf29ce484222325, 0, 0xcbf29ce484222325, 0xcbf29ce5de, 0xaf63bd4c8601b7df);
    StepTo(0xaf63bd4c8601b7df, 0, 0xaf63bd4c8601b7df, 0xaf63bd4db0, 0x8328807b4eb6fed);
    StepTo(0x8328807b4eb6fed, 0, 0x8328807b4eb6fed, 0x8328807c2, 0xd94d12186c0f2fb7);
    StepTo(0xd94d12186c0f2fb7, 0, 0xd94d12186c0f2fb7, 0xd94d1219dd, 0x4d25767f9dce13f5);
    StepTo(0x4d25767f9dce13f5, 0, 0x4d25767f9dce13f5, 0x4d25768020, 0xe4bc4fd9252be94f);
    StepTo(0xe4bc4fd9252be94f, 0, 0xe4bc4fd9252be94f, 0xe4bc4fdaa9, 0xd7e4fcfa299d713d);
    StepTo(0xd7e4fcfa299d713d, 0, 0xd7e4fcfa299d713d, 0xd7e4fcfb98, 0x778b1a14b6876aa7);
    StepTo(0x778b1a14b6876aa7, 0, 0x778b1a14b6876aa7, 0x778b1a1581, 0xa8c7f832281a39c5);
  }

  lemma ZeroLimb(i: nat)
    requires i < 8
    ensures LoadedLimb(ZERO, i) == 0
  {
    var d := Limb(ZERO, i);
    Load64leValue(d);
    assert Reversed(d) == Zeros(8) + [] by { ReversedZero(d); }
    LeadingZeros(8, []);
  }

  lemma {:induction false} ReversedZero(d: seq<byte>)
    requires forall i :: 0 <= i < |d| ==> d[i] == 0
    ensures Reversed(d) == Zeros(|d|)
  {
    if d != [] {
      ReversedZero(d[..|d| - 1]);
    }
  }

  /** Hashing a word made of a 64-bit integer is injective in that integer. */
  lemma HashOfIntegersInjective(u: uint64, v: uint64)
    requires Hash(FromUint64(u)) == Hash(FromUint64(v))
    ensures u == v
  {
    hide Hash, LowBytes, Value, Zeros;
    var a, b := FromUint64(u), FromUint64(v);
    FromUint64Value(u);
    FromUint64Value(v);
    assert forall j: nat :: j < 7 ==> Limb(a, j) == Limb(b, j);
    assert a == Zeros(56) + Limb(a, 7) && b == Zeros(56) + Limb(b, 7);
    if Limb(a, 7) != Limb(b, 7) {
      HashSeparates(a, b, 7);
    }
  }
}
