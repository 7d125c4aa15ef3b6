/**
  Little-endian numbers in base 2^32, the representation that monocypher.c uses for
  scalars.  `Value` gives the number that a sequence of 32-bit words denotes.
 */
module Limbs {

  const B: int := 0x1_0000_0000

  type u8 = x: int | 0 <= x < 0x100
  type u32 = x: int | 0 <= x < 0x1_0000_0000
  type u64 = x: int | 0 <= x < 0x1_0000_0000_0000_0000

  predicate IsU32(x: int) {
    0 <= x < 0x1_0000_0000
  }

  predicate IsU64(x: int) {
    0 <= x < 0x1_0000_0000_0000_0000
  }

  predicate AllU32(w: seq<int>) {
    forall i :: 0 <= i < |w| ==> IsU32(w[i])
  }

  /** Numbers that fit 32 bits, as words */
  function AsWords(w: seq<int>): (u: seq<u32>)
    requires AllU32(w)
    ensures u == w
  {
    w
  }

  function ZeroBytes(n: nat): (z: seq<u8>)
    ensures |z| == n
  {
    seq(n, _ => 0)
  }

  /** x * 2^(32n) */
  function Shifted(x: int, n: nat): int {
    if n == 0 then x else 0x1_0000_0000 * Shifted(x, n - 1)
  }

  /** x * y, under a name that proofs can keep closed */
  function Times(x: int, y: int): int {
    x * y
  }

  lemma {:induction false} ShiftedAdd(x: int, y: int, n: nat)
    ensures Shifted(x + y, n) == Shifted(x, n) + Shifted(y, n)
  {
    if n > 0 {
      ShiftedAdd(x, y, n - 1);
    }
  }

  lemma {:induction false} ShiftedOrder(x: int, y: int, n: nat)
    ensures x < y ==> Shifted(x, n) < Shifted(y, n)
    ensures x == 0 ==> Shifted(x, n) == 0
  {
    if n > 0 {
      ShiftedOrder(x, y, n - 1);
    }
  }

  lemma {:induction false} ShiftedTwice(x: int, m: nat, n: nat)
    ensures Shifted(Shifted(x, m), n) == Shifted(x, m + n)
  {
    if n > 0 {
      ShiftedTwice(x, m, n - 1);
    }
  }

  lemma {:induction false} ShiftedTimes(k: int, x: int, n: nat)
    ensures Shifted(Times(k, x), n) == Times(k, Shifted(x, n)) == Times(Shifted(k, n), x)
  {
    if n > 0 {
      ShiftedTimes(k, x, n - 1);
      assert k * (0x1_0000_0000 * Shifted(x, n - 1)) == 0x1_0000_0000 * (k * Shifted(x, n - 1));
      assert x * (0x1_0000_0000 * Shifted(k, n - 1)) == 0x1_0000_0000 * (x * Shifted(k, n - 1));
    }
  }

  lemma {:induction false} ShiftedWord(x: int, n: nat)
    ensures Shifted(x, n + 1) == Shifted(0x1_0000_0000 * x, n)
  {
    ShiftedTwice(x, 1, n);
    assert Shifted(x, 1) == 0x1_0000_0000 * Shifted(x, 0);
  }

  lemma {:induction false} WordBounds(x: u32, n: nat)
    ensures 0 <= Shifted(x, n) && Shifted(x, n) + Shifted(1, n) <= Shifted(1, n + 1)
  {
    ShiftedOrder(0, x, n);
    ShiftedAdd(x, 1, n);
    ShiftedOrder(x + 1, 0x1_0000_0000, n);
    ShiftedWord(1, n);
  }

  function Value(s: seq<u32>): (v: int)
    ensures 0 <= v < Shifted(1, |s|)
  {
    if s == [] then 0
    else
      var k := |s| - 1;
      WordBounds(s[k], k);
      Value(s[..k]) + Shifted(s[k], k)
  }

  lemma {:induction false} ValueEmpty()
    ensures Value([]) == 0
    ensures forall x :: Shifted(x, 0) == x
  {
  }

  lemma {:induction false} ValuePush(s: seq<u32>, x: u32)
    ensures Value(s + [x]) == Value(s) + Shifted(x, |s|)
  {
    assert (s + [x])[..|s|] == s;
  }

  /** Extending a window of s by one word at the top. */
  lemma {:induction false} ValueSlice(s: seq<u32>, off: nat, j: nat)
    requires off + j < |s|
    ensures Value(s[off..off + j + 1]) == Value(s[off..off + j]) + Shifted(s[off + j], j)
  {
    assert s[off..off + j + 1] == s[off..off + j] + [s[off + j]];
    ValuePush(s[off..off + j], s[off + j]);
  }

  lemma {:induction false} ValueTop(s: seq<u32>, j: nat)
    requires j < |s|
    ensures Value(s[..j + 1]) == Value(s[..j]) + Shifted(s[j], j)
  {
    assert s[..j + 1] == s[..j] + [s[j]];
    ValuePush(s[..j], s[j]);
  }

  lemma {:induction false} ValueAppend(s: seq<u32>, t: seq<u32>)
    ensures Value(s + t) == Value(s) + Shifted(Value(t), |s|)
  {
    if t == [] {
      assert s + t == s;
      ShiftedOrder(0, 0, |s|);
    } else {
      var k := |t| - 1;
      ValueAppend(s, t[..k]);
      ValuePush(s + t[..k], t[k]);
      assert s + t[..k] + [t[k]] == s + t;
      ShiftedTwice(t[k], k, |s|);
      ShiftedAdd(Value(t[..k]), Shifted(t[k], k), |s|);
    }
  }

  lemma {:induction false} Halves(s: seq<u32>, i: nat)
    requires i <= |s|
    ensures Value(s) == Value(s[..i]) + Shifted(Value(s[i..]), i)
  {
    assert s == s[..i] + s[i..];
    ValueAppend(s[..i], s[i..]);
  }

  /** The split of a number at word n is unique. */
  lemma {:induction false} TopLimb(x: int, a: int, y: int, b: int, n: nat)
    requires 0 <= x < Shifted(1, n) && 0 <= y < Shifted(1, n)
    requires x + Shifted(a, n) == y + Shifted(b, n)
    ensures a == b && x == y
  {
    ShiftedAdd(a, 1, n);
    ShiftedAdd(b, 1, n);
    ShiftedOrder(a + 1, b, n);
    ShiftedOrder(b + 1, a, n);
  }

  /** Equal-length limb sequences with equal value are equal. */
  lemma {:induction false} ValueInjective(s: seq<u32>, t: seq<u32>)
    requires |s| == |t| && Value(s) == Value(t)
    ensures s == t
  {
    if s != [] {
      var k := |s| - 1;
      TopLimb(Value(s[..k]), s[k], Value(t[..k]), t[k], k);
      ValueInjective(s[..k], t[..k]);
      assert s == s[..k] + [s[k]] && t == t[..k] + [t[k]];
    }
  }

  lemma {:induction false} MulLe(x: int, y: int, z: int)
    requires x <= y && 0 <= z
    ensures x * z <= y * z
  {
  }

  lemma {:induction false} ProductFits(k: u32, y: u32)
    ensures 0 <= k * y <= 0xFFFF_FFFE_0000_0001
  {
    MulLe(k, 0xFFFF_FFFF, y);
    MulLe(0, k, y);
  }

  /** carry + w + k*y, computed in 64 bits without overflow and split into its two words */
  method MulAddWord(carry: u32, w: u32, k: u32, y: u32) returns (lo: u32, hi: u32)
    ensures lo + 0x1_0000_0000 * hi as int == carry + w + Times(k, y)
  {
    ProductFits(k, y);
    var m: u64 := k * y;
    var v: u64 := carry + w + m;
    lo, hi := v % 0x1_0000_0000, v / 0x1_0000_0000;
  }

  /** One step of a multiply-accumulate row: the low word stays, the high word is carried. */
  lemma {:induction false} RowStep(carry: int, n: nat, k: int, w: int, y: int, v0: int, v1: int)
    requires v0 + 0x1_0000_0000 * v1 == carry + w + Times(k, y)
    ensures Shifted(v0, n) + Shifted(v1, n + 1) == Shifted(carry, n) + Shifted(w, n) + Times(k, Shifted(y, n))
  {
    ShiftedWord(v1, n);
    ShiftedAdd(v0, 0x1_0000_0000 * v1, n);
    ShiftedAdd(carry + w, Times(k, y), n);
    ShiftedAdd(carry, w, n);
    ShiftedTimes(k, y, n);
  }

  lemma {:induction false} TimesAdd(k: int, x: int, y: int)
    ensures Times(k, x + y) == Times(k, x) + Times(k, y)
    ensures Times(x + y, k) == Times(x, k) + Times(y, k)
  {
  }

  lemma {:induction false} TimesZero()
    ensures forall x :: Times(x, 0) == 0 && Times(0, x) == 0
  {
  }

  /** p[off..off+|y|] += k * y; the word carried out of the top is returned. */
  method MulAddRow(p: array<u32>, off: nat, k: u32, y: seq<u32>) returns (carry: u32)
    requires off + |y| <= p.Length
    modifies p
    ensures Value(p[off..off + |y|]) + Shifted(carry, |y|) == old(Value(p[off..off + |y|])) + Times(k, Value(y))
    ensures forall m :: 0 <= m < p.Length && !(off <= m < off + |y|) ==> p[m] == old(p[m])
  {
    ValueEmpty();
    TimesZero();
    hide Value, Shifted, Times;
    carry := 0;
    ghost var was := p[..];
    assert p[off..off] == [] && was[off..off] == [] && y[..0] == [];
    for j := 0 to |y|
      invariant forall m :: 0 <= m < p.Length && !(off <= m < off + j) ==> p[m] == was[m]
      invariant Value(p[off..off + j]) + Shifted(carry, j) == Value(was[off..off + j]) + Times(k, Value(y[..j]))
    {
      ghost var lo := p[off..off + j];
      var v, next := MulAddWord(carry, p[off + j], k, y[j]);
      RowStep(carry, j, k, p[off + j], y[j], v, next);
      p[off + j], carry := v, next;
      ValueSlice(p[..], off, j);
      ValueSlice(was, off, j);
      ValueTop(y, j);
      TimesAdd(k, Value(y[..j]), Shifted(y[j], j));
      assert p[off..off + j] == lo;
    }
    assert was == old(p[..]) && y[..|y|] == y;
  }

  // ----- little-endian bytes

  /** The number that a little-endian byte string denotes */
  function BytesValue(b: seq<u8>): (v: int)
    ensures 0 <= v
  {
    if b == [] then 0 else b[0] + 0x100 * BytesValue(b[1..])
  }

  function Load32(b: seq<u8>): u32
    requires |b| >= 4
  {
    var w: int := b[0] as int + 0x100 * b[1] as int + 0x1_0000 * b[2] as int + 0x100_0000 * b[3] as int;
    w
  }

  function Store32(w: u32): (b: seq<u8>)
    ensures |b| == 4
  {
    var w1 := w / 0x100;
    var w2 := w1 / 0x100;
    [w % 0x100, w1 % 0x100, w2 % 0x100, w2 / 0x100]
  }

  function LoadWords(b: seq<u8>): (w: seq<u32>)
    requires |b| % 4 == 0
    ensures |w| == |b| / 4
  {
    if b == [] then [] else [Load32(b)] + LoadWords(b[4..])
  }

  function StoreWords(w: seq<u32>): (b: seq<u8>)
    ensures |b| == 4 * |w|
  {
    if w == [] then [] else Store32(w[0]) + StoreWords(w[1..])
  }

  lemma {:induction false} BytesValue4(b: seq<u8>)
    requires |b| >= 4
    ensures BytesValue(b) == Load32(b) + B * BytesValue(b[4..])
  {
    assert b[1..][1..] == b[2..] && b[2..][1..] == b[3..] && b[3..][1..] == b[4..];
    assert BytesValue(b[1..]) == b[1] + 0x100 * BytesValue(b[2..]);
    assert BytesValue(b[2..]) == b[2] + 0x100 * BytesValue(b[3..]);
    assert BytesValue(b[3..]) == b[3] + 0x100 * BytesValue(b[4..]);
  }

  lemma {:induction false} ValueCons(x: u32, s: seq<u32>)
    ensures Value([x] + s) == x + B * Value(s)
  {
    ValueAppend([x], s);
    ValuePush([], x);
    assert [] + [x] == [x];
    assert Shifted(Value(s), 1) == B * Shifted(Value(s), 0);
  }

  /** Loading a little-endian buffer into words keeps the number it denotes. */
  lemma {:induction false} LoadWordsValue(b: seq<u8>)
    requires |b| % 4 == 0
    ensures Value(LoadWords(b)) == BytesValue(b)
  {
    if b != [] {
      BytesValue4(b);
      LoadWordsValue(b[4..]);
      ValueCons(Load32(b), LoadWords(b[4..]));
    }
  }

  /** Storing words into a little-endian buffer keeps the number they denote. */
  lemma {:induction false} StoreWordsValue(w: seq<u32>)
    ensures BytesValue(StoreWords(w)) == Value(w)
  {
    if w != [] {
      StoreWordsValue(w[1..]);
      BytesValue4(StoreWords(w));
      assert StoreWords(w)[4..] == StoreWords(w[1..]);
      Store32Load32(w[0], StoreWords(w));
      ValueCons(w[0], w[1..]);
      assert [w[0]] + w[1..] == w;
    }
  }

  lemma {:induction false} Store32Load32(w: u32, b: seq<u8>)
    requires |b| >= 4 && b[..4] == Store32(w)
    ensures Load32(b) == w
  {
    assert b[0] == b[..4][0] && b[1] == b[..4][1] && b[2] == b[..4][2] && b[3] == b[..4][3];
  }

  /** Equal-length byte strings with equal value are equal. */
  lemma {:induction false} BytesValueInjective(a: seq<u8>, b: seq<u8>)
    requires |a| == |b| && BytesValue(a) == BytesValue(b)
    ensures a == b
  {
    if a != [] {
      BytesValueInjective(a[1..], b[1..]);
      assert a == [a[0]] + a[1..] && b == [b[0]] + b[1..];
    }
  }

  /** Words survive being stored and loaded, and stored bytes being loaded and stored. */
  lemma {:induction false} WordsRoundTrip(w: seq<u32>)
    ensures LoadWords(StoreWords(w)) == w
  {
    LoadWordsValue(StoreWords(w));
    StoreWordsValue(w);
    ValueInjective(LoadWords(StoreWords(w)), w);
  }

  lemma {:induction false} BytesRoundTrip(b: seq<u8>)
    requires |b| % 4 == 0
    ensures StoreWords(LoadWords(b)) == b
  {
    LoadWordsValue(b);
    StoreWordsValue(LoadWords(b));
    BytesValueInjective(StoreWords(LoadWords(b)), b);
  }

  lemma {:induction false} Store32Inverse(b: seq<u8>)
    requires |b| == 4
    ensures Store32(Load32(b)) == b
  {
    var w1: int := b[1] as int + 0x100 * b[2] as int + 0x1_0000 * b[3] as int;
    var w2: int := b[2] as int + 0x100 * b[3] as int;
    assert Load32(b) == b[0] + 0x100 * w1 && w1 == b[1] + 0x100 * w2;
    var w := Load32(b) as int;
    assert w / 0x100 == w1;
    assert w1 / 0x100 == w2;
    assert w2 / 0x100 == b[3];
  }

  lemma {:induction false} LoadPrefix(b: seq<u8>)
    requires |b| >= 4
    ensures Load32(b) == Load32(b[..4])
  {
  }

  // ----- 16-bit numbers

  function Store16(x: int): (b: seq<u8>)
    ensures |b| == 2
  {
    [x % 0x100, x / 0x100 % 0x100]
  }

  function Load16(b: seq<u8>): (x: int)
    requires |b| == 2
    ensures 0 <= x < 0x1_0000
  {
    b[0] as int + 0x100 * b[1] as int
  }

  /** A 16-bit number as a signed one */
  function Signed16(x: int): int {
    if x < 0x8000 then x else x - 0x1_0000
  }

  lemma {:induction false} Store16Load16(x: int)
    ensures Load16(Store16(x)) == x % 0x1_0000
  {
    assert x % 0x1_0000 == x % 0x100 + 0x100 * (x / 0x100 % 0x100);
  }

  lemma {:induction false} Load16Store16(b: seq<u8>)
    requires |b| == 2
    ensures Store16(Load16(b)) == b
    ensures Store16(Signed16(Load16(b))) == b
  {
    var x := Load16(b);
    assert x / 0x100 == b[1] && x % 0x100 == b[0];
    assert (x - 0x1_0000) / 0x100 == b[1] as int - 0x100 && (x - 0x1_0000) % 0x100 == b[0];
  }

  // ----- powers of two

  /** x * 2^n */
  function Weight(x: int, n: nat): int {
    if n == 0 then x else 2 * Weight(x, n - 1)
  }

  function Pow2(n: nat): (p: int)
    ensures p > 0
  {
    WeightOrder(1, n);
    Weight(1, n)
  }

  lemma {:induction false} WeightAdd(x: int, y: int, n: nat)
    ensures Weight(x + y, n) == Weight(x, n) + Weight(y, n)
  {
    if n > 0 {
      WeightAdd(x, y, n - 1);
    }
  }

  lemma {:induction false} WeightTwice(x: int, m: nat, n: nat)
    ensures Weight(Weight(x, m), n) == Weight(x, m + n)
  {
    if n > 0 {
      WeightTwice(x, m, n - 1);
    }
  }

  lemma {:induction false} WeightOrder(x: int, n: nat)
    ensures x > 0 ==> Weight(x, n) >= x
    ensures x == 0 ==> Weight(x, n) == 0
    ensures x < 0 ==> Weight(x, n) <= x
  {
    if n > 0 {
      WeightOrder(x, n - 1);
    }
  }

  lemma {:induction false} ZeroWeight()
    ensures forall n: nat :: Weight(0, n) == 0
  {
    forall n: nat ensures Weight(0, n) == 0 {
      WeightOrder(0, n);
    }
  }

  lemma {:induction false} SmallWeights(x: int)
    ensures Weight(x, 0) == x && Weight(x, 1) == 2 * x && Weight(x, 2) == 4 * x && Weight(x, 3) == 8 * x
    ensures Weight(x, 4) == 16 * x && Weight(x, 5) == 32 * x && Weight(x, 6) == 64 * x && Weight(x, 7) == 128 * x
    ensures Weight(x, 8) == 256 * x
  {
    assert Weight(x, 3) == 2 * Weight(x, 2);
    assert Weight(x, 5) == 2 * Weight(x, 4);
    assert Weight(x, 7) == 2 * Weight(x, 6);
  }
}
