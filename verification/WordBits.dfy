/**
  Shifts and joins of 32-bit words, and the numbers they denote: what `>>`, `<<` and `|` do in terms of
  division, multiplication and addition.
 */
module WordBits {
  import opened Limbs

  /** The number that a word denotes */
  function Num(x: bv32): (n: int)
    ensures 0 <= n < 0x1_0000_0000
  {
    x as int
  }

  // The operations of the source, under names that proofs can keep closed

  function Or(x: bv32, y: bv32): bv32 {
    x | y
  }

  function And(x: bv32, y: bv32): bv32 {
    x & y
  }

  function Half(x: bv32): bv32 {
    x >> 1
  }

  function Twice(x: bv32): bv32 {
    x << 1
  }

  predicate Odd(x: bv32) {
    x & 1 == 1
  }

  // ----- one bit at a time

  lemma {:induction false} DoubleRaw(u: bv32)
    requires u as int < 0x8000_0000
    ensures (u << 1) as int == 2 * (u as int) && ((u << 1) | 1) as int == 2 * (u as int) + 1
  {
  }

  lemma {:induction false} TwiceNum(u: bv32)
    requires Num(u) < 0x8000_0000
    ensures Num(Twice(u)) == 2 * Num(u) && Num(Or(Twice(u), 1)) == 2 * Num(u) + 1
  {
    DoubleRaw(u);
    assert Twice(u) == u << 1 && Or(Twice(u), 1) == (u << 1) | 1;
    assert Num(u) == u as int && Num(u << 1) == (u << 1) as int && Num((u << 1) | 1) == ((u << 1) | 1) as int;
    hide *;
  }

  lemma {:induction false} Up1Raw(x: bv32)
    ensures (x << 1) as int == 2 * ((x & 0x7fff_ffff) as int)
  {
  }

  lemma {:induction false} Low31(x: bv32)
    ensures Num(x & 0x7fff_ffff) < 0x8000_0000
  {
    Up1Raw(x);
    assert Num(x << 1) == (x << 1) as int && Num(x & 0x7fff_ffff) == (x & 0x7fff_ffff) as int;
    hide *;
  }

  lemma {:induction false} HalfRaw(x: bv32)
    ensures x >> 1 == (x >> 1) & 0x7fff_ffff
  {
  }

  lemma {:induction false} HalfSmall(x: bv32)
    ensures Num(Half(x)) < 0x8000_0000
  {
    HalfRaw(x);
    Low31(x >> 1);
  }

  lemma {:induction false} HalfParts(x: bv32)
    ensures x == if Odd(x) then Or(Twice(Half(x)), 1) else Twice(Half(x))
  {
  }

  lemma {:induction false} HalfNum(x: bv32)
    ensures Num(x) == 2 * Num(Half(x)) + if Odd(x) then 1 else 0
  {
    hide Num, Or, Half, Twice, Odd;
    HalfSmall(x);
    HalfParts(x);
    TwiceNum(Half(x));
  }

  lemma {:induction false} HalfOr(x: bv32, y: bv32)
    requires And(x, y) == 0
    ensures And(Half(x), Half(y)) == 0 && Half(Or(x, y)) == Or(Half(x), Half(y))
    ensures Odd(Or(x, y)) <==> Odd(x) || Odd(y)
    ensures !(Odd(x) && Odd(y))
  {
  }

  lemma {:induction false} ZeroNum(x: bv32)
    ensures Num(x) == 0 <==> x == 0
  {
  }

  lemma {:induction false} OrZero()
    ensures Or(0, 0) == 0
  {
  }

  /** On words that share no bits `|` is addition. */
  lemma {:induction false} DisjointNum(x: bv32, y: bv32)
    requires And(x, y) == 0
    ensures Num(Or(x, y)) == Num(x) + Num(y)
    decreases Num(x) + Num(y)
  {
    hide Num, Or, And, Half, Odd;
    ZeroNum(x);
    ZeroNum(y);
    if x == 0 && y == 0 {
      OrZero();
    } else {
      HalfNum(x);
      HalfNum(y);
      HalfNum(Or(x, y));
      HalfOr(x, y);
      DisjointNum(Half(x), Half(y));
    }
  }

  /** The word of a number, built bit by bit */
  function ToWord(n: int): (u: bv32)
    requires 0 <= n < 0x1_0000_0000
    ensures Num(u) == n
  {
    ZeroNum(0);
    if n == 0 then 0
    else
      var half := ToWord(n / 2);
      TwiceNum(half);
      if n % 2 == 1 then Or(Twice(half), 1) else Twice(half)
  }

  // ----- shifts by any number of bits

  /** x >> k, one bit at a time */
  function Down(x: bv32, k: nat): bv32 {
    if k == 0 then x else Half(Down(x, k - 1))
  }

  /** x << k, one bit at a time */
  function Up(x: bv32, k: nat): bv32 {
    if k == 0 then x else Twice(Up(x, k - 1))
  }

  lemma {:induction false} WeightDouble(x: int, k: nat)
    ensures Weight(2 * x, k) == 2 * Weight(x, k)
  {
    if k > 0 {
      WeightDouble(x, k - 1);
    }
  }

  /** What a right shift keeps, and what it drops */
  lemma {:induction false} DownNum(x: bv32, k: nat) returns (low: int)
    ensures Num(x) == low + Weight(Num(Down(x, k)), k) && 0 <= low < Weight(1, k)
  {
    hide Num, Half, Odd;
    if k == 0 {
      low := 0;
    } else {
      var below := DownNum(x, k - 1);
      var y := Down(x, k - 1);
      HalfNum(y);
      var bit := if Odd(y) then 1 else 0;
      WeightAdd(2 * Num(Half(y)), bit, k - 1);
      WeightDouble(Num(Half(y)), k - 1);
      WeightOrder(0, k - 1);
      low := below + Weight(bit, k - 1);
    }
  }

  /** A left shift multiplies modulo 2^32. */
  lemma {:induction false} UpNum(x: bv32, k: nat)
    ensures Num(Up(x, k)) == Weight(Num(x), k) % 0x1_0000_0000
  {
    hide Num, Twice;
    if k > 0 {
      UpNum(x, k - 1);
      TwiceMod(Up(x, k - 1));
      DoubleMod(Weight(Num(x), k - 1));
    }
  }

  lemma {:induction false} DoubleMod(w: int)
    ensures 2 * (w % 0x1_0000_0000) % 0x1_0000_0000 == 2 * w % 0x1_0000_0000
  {
    var q, r := w / 0x1_0000_0000, w % 0x1_0000_0000;
    if r < 0x8000_0000 {
      SmallRemainder(2 * w, 2 * q, 2 * r);
      SmallRemainder(2 * r, 0, 2 * r);
    } else {
      SmallRemainder(2 * w, 2 * q + 1, 2 * r - 0x1_0000_0000);
      SmallRemainder(2 * r, 1, 2 * r - 0x1_0000_0000);
    }
  }

  lemma {:induction false} SmallRemainder(x: int, q: int, r: int)
    requires x == 0x1_0000_0000 * q + r && 0 <= r < 0x1_0000_0000
    ensures x % 0x1_0000_0000 == r
  {
  }

  /** The top bit leaves the word. */
  lemma {:induction false} TwiceMod(x: bv32)
    ensures Num(Twice(x)) == 2 * Num(x) % 0x1_0000_0000
  {
    hide Num, Twice, Or, And;
    TwiceLow(x);
    TopBit(x);
    TopNum(And(x, 0x8000_0000));
    DisjointNum(And(x, 0x7fff_ffff), And(x, 0x8000_0000));
  }

  lemma {:induction false} TwiceLow(x: bv32)
    ensures Num(Twice(x)) == 2 * Num(And(x, 0x7fff_ffff))
  {
    Up1Raw(x);
    assert Twice(x) == x << 1 && And(x, 0x7fff_ffff) == x & 0x7fff_ffff;
    assert Num(x << 1) == (x << 1) as int && Num(x & 0x7fff_ffff) == (x & 0x7fff_ffff) as int;
    hide *;
  }

  lemma {:induction false} TopBit(x: bv32)
    ensures x == Or(And(x, 0x7fff_ffff), And(x, 0x8000_0000)) && And(And(x, 0x7fff_ffff), And(x, 0x8000_0000)) == 0
    ensures And(x, 0x8000_0000) == 0 || And(x, 0x8000_0000) == 0x8000_0000
  {
  }

  lemma {:induction false} TopNum(t: bv32)
    requires t == 0 || t == 0x8000_0000
    ensures Num(t) == if t == 0 then 0 else 0x8000_0000
  {
  }

  lemma {:induction false} TwiceBelow(x: bv32, z: bv32)
    requires And(Half(x), z) == 0
    ensures And(x, Twice(z)) == 0
  {
  }

  lemma {:induction false} AndZero(y: bv32)
    ensures And(0, y) == 0
  {
  }

  /** A number below 2^k shares no bits with one shifted up by k. */
  lemma {:induction false} Below(x: bv32, y: bv32, k: nat)
    requires Num(x) < Weight(1, k)
    ensures And(x, Up(y, k)) == 0
    decreases k
  {
    hide Num, Half, And, Twice, Odd;
    if k == 0 {
      ZeroNum(x);
      AndZero(Up(y, 0));
    } else {
      HalfNum(x);
      Below(Half(x), y, k - 1);
      TwiceBelow(x, Up(y, k - 1));
    }
  }

  /** A short word joined with another one shifted above it */
  lemma {:induction false} JoinNum(x: bv32, y: bv32, k: nat)
    requires Num(x) < Weight(1, k)
    ensures Num(Or(x, Up(y, k))) == Num(x) + Weight(Num(y), k) % 0x1_0000_0000
  {
    hide Num, Or, And, Up, Weight;
    Below(x, y, k);
    DisjointNum(x, Up(y, k));
    UpNum(y, k);
  }

  // ----- the same in terms of division and multiplication

  lemma {:induction false} WeightTimes(x: int, k: nat)
    ensures Weight(x, k) == x * Pow2(k) && Pow2(k) > 0
  {
    if k > 0 {
      WeightTimes(x, k - 1);
    }
  }

  lemma {:induction false} Division(x: int, q: int, d: int, r: int)
    requires x == q * d + r && 0 <= r < d
    ensures q == x / d && r == x % d
  {
    var q', r' := x / d, x % d;
    Euclid(x, d);
    Unique(q, r, q', r', d);
  }

  lemma {:induction false} Euclid(x: int, d: int)
    requires d > 0
    ensures x == x / d * d + x % d
  {
  }

  lemma {:induction false} Unique(q: int, r: int, q': int, r': int, d: int)
    requires q * d + r == q' * d + r' && 0 <= r < d && 0 <= r' < d
    ensures q == q' && r == r'
  {
    assert (q - q') * d == r' - r;
    if q < q' {
      MulLe(1, q' - q, d);
    } else if q > q' {
      MulLe(1, q - q', d);
    }
  }

  /** Multiplying by 2^k modulo 2^32 keeps the low 32 - k bits. */
  lemma {:induction false} TimesMod(y: int, p: int, c: int)
    requires p > 0 && c > 0 && p * c == 0x1_0000_0000
    ensures y * p % 0x1_0000_0000 == y % c * p
  {
    var q, s := y / c, y % c;
    assert y * p == q * (p * c) + s * p;
    assert s * p <= (c - 1) * p;
    Division(y * p, q, 0x1_0000_0000, s * p);
  }

  lemma {:induction false} PowersMeet(k: nat)
    requires k <= 32
    ensures Pow2(k) * Pow2(32 - k) == 0x1_0000_0000
  {
    WeightTwice(1, 32 - k, k);
    WeightTimes(Pow2(32 - k), k);
    Pow32();
  }

  lemma {:induction false} Pow32()
    ensures Pow2(32) == 0x1_0000_0000
  {
    assert Pow2(4) == 16;
    WeightTwice(1, 4, 4);
    assert Weight(16, 4) == 256;
    WeightTwice(1, 8, 8);
    WeightTwice(256, 4, 4);
    assert Weight(256, 4) == 4096;
    assert Weight(4096, 4) == 65536;
    WeightTwice(1, 16, 16);
    WeightTwice(65536, 8, 8);
    WeightTwice(65536, 4, 4);
    assert Weight(65536, 4) == 0x10_0000;
    assert Weight(0x10_0000, 4) == 0x100_0000;
    WeightTwice(0x100_0000, 4, 4);
    assert Weight(0x100_0000, 4) == 0x1000_0000;
    assert Weight(0x1000_0000, 4) == 0x1_0000_0000;
  }

  /** x >> j | y << k, where what is left of x fits below the shifted y */
  lemma {:induction false} ShiftedJoin(x: bv32, j: nat, y: bv32, k: nat)
    requires k <= 32 && Num(x) < Pow2(j + k)
    ensures Num(Or(Down(x, j), Up(y, k))) == Num(x) / Pow2(j) + Num(y) % Pow2(32 - k) * Pow2(k)
  {
    hide Num, Or, Up, Down, Pow2;
    var low := DownNum(x, j);
    var q := Num(Down(x, j));
    WeightTimes(q, j);
    OnePow(j);
    Division(Num(x), q, Pow2(j), low);
    ShortQuotient(Num(x), low, q, j, k);
    OnePow(k);
    JoinNum(Down(x, j), y, k);
    WeightTimes(Num(y), k);
    WeightTimes(1, 32 - k);
    PowersMeet(k);
    OnePow(32 - k);
    TimesMod(Num(y), Pow2(k), Pow2(32 - k));
  }

  lemma {:induction false} OnePow(k: nat)
    ensures Weight(1, k) == Pow2(k)
  {
  }

  lemma {:induction false} ShortQuotient(x: int, low: int, q: int, j: nat, k: nat)
    requires 0 <= low && x == low + Weight(q, j) && x < Pow2(j + k)
    ensures q < Pow2(k)
  {
    if q >= Pow2(k) {
      WeightTwice(1, k, j);
      WeightAdd(Pow2(k), q - Pow2(k), j);
      WeightOrder(q - Pow2(k), j);
    }
  }

  // ----- one bit at a time is what the shift operators do

  lemma {:induction false} DownIsShift(x: bv32)
    ensures Down(x, 6) == x >> 6 && Down(x, 7) == x >> 7 && Down(x, 13) == x >> 13
    ensures Down(x, 19) == x >> 19 && Down(x, 20) == x >> 20
  {
    assert Down(x, 0) == x >> 0;
    assert Down(x, 1) == x >> 1;
    assert Down(x, 2) == x >> 2;
    assert Down(x, 3) == x >> 3;
    assert Down(x, 4) == x >> 4;
    assert Down(x, 5) == x >> 5;
    assert Down(x, 6) == x >> 6;
    assert Down(x, 7) == x >> 7;
    assert Down(x, 8) == x >> 8;
    assert Down(x, 9) == x >> 9;
    assert Down(x, 10) == x >> 10;
    assert Down(x, 11) == x >> 11;
    assert Down(x, 12) == x >> 12;
    assert Down(x, 13) == x >> 13;
    assert Down(x, 14) == x >> 14;
    assert Down(x, 15) == x >> 15;
    assert Down(x, 16) == x >> 16;
    assert Down(x, 17) == x >> 17;
    assert Down(x, 18) == x >> 18;
    assert Down(x, 19) == x >> 19;
  }

  lemma {:induction false} NoShift(x: bv32)
    ensures Down(x, 0) == x
  {
  }

  lemma {:induction false} UpTwice(x: bv32, m: nat, k: nat)
    ensures Up(Up(x, m), k) == Up(x, m + k)
    decreases k
  {
    hide Twice;
    if k > 0 {
      UpTwice(x, m, k - 1);
    }
  }

  lemma {:induction false} Up1(x: bv32)
    ensures Up(x, 1) == x << 1
  {
    assert Up(x, 0) == x;
  }

  lemma {:induction false} Up2(x: bv32)
    ensures Up(x, 2) == x << 2
  {
    hide Up;
    Up1(x);
    Up1(x << 1);
    UpTwice(x, 1, 1);
  }

  lemma {:induction false} Up3(x: bv32)
    ensures Up(x, 3) == x << 3
  {
    hide Up;
    Up2(x);
    Up1(x << 2);
    UpTwice(x, 2, 1);
  }

  lemma {:induction false} Up6(x: bv32)
    ensures Up(x, 6) == x << 6
  {
    hide Up;
    Up3(x);
    Up3(x << 3);
    UpTwice(x, 3, 3);
  }

  lemma {:induction false} Up12(x: bv32)
    ensures Up(x, 12) == x << 12
  {
    hide Up;
    Up6(x);
    Up6(x << 6);
    UpTwice(x, 6, 6);
  }

  lemma {:induction false} Up13(x: bv32)
    ensures Up(x, 13) == x << 13
  {
    hide Up;
    Up12(x);
    Up1(x << 12);
    UpTwice(x, 12, 1);
  }

  lemma {:induction false} Up19(x: bv32)
    ensures Up(x, 19) == x << 19
  {
    hide Up;
    Up13(x);
    Up6(x << 13);
    UpTwice(x, 13, 6);
  }

  lemma {:induction false} Up25(x: bv32)
    ensures Up(x, 25) == x << 25
  {
    hide Up;
    Up13(x);
    Up12(x << 13);
    UpTwice(x, 13, 12);
  }

  lemma {:induction false} Up26(x: bv32)
    ensures Up(x, 26) == x << 26
  {
    hide Up;
    Up13(x);
    Up13(x << 13);
    UpTwice(x, 13, 13);
  }
}
