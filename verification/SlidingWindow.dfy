/**
  Signed sliding windows over a 32-byte scalar, read from the top bit down, as the
  signature check of monocypher.c uses them.
 */
module SlidingWindow {
  import opened Limbs

  // ----- bits

  /** The bit of weight 2^i; positions below zero read as 0. */
  function ScalarBit(s: seq<u8>, i: int): (b: int)
    requires i < 8 * |s|
    ensures b == 0 || b == 1
  {
    if i < 0 then 0 else s[i / 8] / [1, 2, 4, 8, 16, 32, 64, 128][i % 8] % 2
  }

  /** The number that the bits below position i form */
  function Low(s: seq<u8>, i: nat): (v: int)
    requires i <= 8 * |s|
    ensures 0 <= v < Pow2(i)
  {
    if i == 0 then 0
    else
      WeightOrder(0, i - 1);
      Low(s, i - 1) + Weight(ScalarBit(s, i - 1), i - 1)
  }

  lemma {:induction false} LowStep(s: seq<u8>, i: nat)
    requires i < 8 * |s|
    ensures Low(s, i + 1) == Low(s, i) + Weight(ScalarBit(s, i), i)
  {
  }

  /** The two's complement reading of bits c..0: bit c weighs -2^c. */
  function Twos(s: seq<u8>, c: int): int
    requires -1 <= c < 8 * |s|
  {
    if c < 0 then 0 else Low(s, c) - Weight(ScalarBit(s, c), c)
  }

  lemma {:induction false} ByteBits(b: u8)
    ensures b == b % 2 + 2 * (b / 2 % 2) + 4 * (b / 4 % 2) + 8 * (b / 8 % 2)
                 + 16 * (b / 16 % 2) + 32 * (b / 32 % 2) + 64 * (b / 64 % 2) + 128 * (b / 128 % 2)
  {
    var b1, b2, b3 := b / 2, b / 4, b / 8;
    var b4, b5, b6, b7 := b / 16, b / 32, b / 64, b / 128;
    assert b2 == b1 / 2 && b3 == b2 / 2 && b4 == b3 / 2;
    assert b5 == b4 / 2 && b6 == b5 / 2 && b7 == b6 / 2;
  }

  lemma {:induction false} LowByte(s: seq<u8>)
    requires s != []
    ensures Low(s, 8) == s[0]
  {
    var b := s[0];
    SmallWeights(0);
    SmallWeights(1);
    assert Low(s, 1) == b % 2;
    assert Low(s, 2) == Low(s, 1) + (b / 2 % 2) * 2;
    assert Low(s, 3) == Low(s, 2) + (b / 4 % 2) * 4;
    assert Low(s, 4) == Low(s, 3) + (b / 8 % 2) * 8;
    assert Low(s, 5) == Low(s, 4) + (b / 16 % 2) * 16;
    assert Low(s, 6) == Low(s, 5) + (b / 32 % 2) * 32;
    assert Low(s, 7) == Low(s, 6) + (b / 64 % 2) * 64;
    assert Low(s, 8) == Low(s, 7) + (b / 128 % 2) * 128;
    ByteBits(b);
  }

  /** The bits of all bytes but the first */
  lemma {:induction false} BitShift(s: seq<u8>, i: nat)
    requires s != [] && i < 8 * (|s| - 1)
    ensures ScalarBit(s, 8 + i) == ScalarBit(s[1..], i)
  {
    assert (8 + i) / 8 == 1 + i / 8 && (8 + i) % 8 == i % 8;
  }

  lemma {:induction false} LowShift(s: seq<u8>, i: nat)
    requires s != [] && i <= 8 * (|s| - 1)
    ensures Low(s, 8 + i) == s[0] + 0x100 * Low(s[1..], i)
  {
    hide Low, Weight, ScalarBit;
    if i == 0 {
      LowByte(s);
      LowEmpty(s[1..]);
    } else {
      LowShift(s, i - 1);
      BitShift(s, i - 1);
      var b := ScalarBit(s, 8 + (i - 1));
      LowStep(s, 8 + (i - 1));
      LowStep(s[1..], i - 1);
      WeightTwice(b, i - 1, 8);
      SmallWeights(Weight(b, i - 1));
      assert i - 1 + 8 == 8 + (i - 1);
    }
  }

  lemma {:induction false} LowEmpty(s: seq<u8>)
    ensures Low(s, 0) == 0
  {
  }

  /** The bits of a byte string, weighted by powers of two, add up to its value. */
  lemma {:induction false} LowIsValue(s: seq<u8>)
    ensures Low(s, 8 * |s|) == BytesValue(s)
  {
    if s != [] {
      LowIsValue(s[1..]);
      LowShift(s, 8 * (|s| - 1));
    }
  }

  /** A number below 2^n has no bits from position n up. */
  lemma {:induction false} HighBitsZero(s: seq<u8>, n: nat, k: nat)
    requires n <= k <= 8 * |s| && BytesValue(s) < Pow2(n)
    ensures Low(s, k) == BytesValue(s)
    ensures k < 8 * |s| ==> ScalarBit(s, k) == 0
    decreases 8 * |s| - k
  {
    hide ScalarBit, BytesValue;
    if k == 8 * |s| {
      LowIsValue(s);
    } else {
      HighBitsZero(s, n, k + 1);
      WeightTwice(1, n, k - n);
      WeightOrder(Pow2(n), k - n);
      WeightOrder(1, n);
      WeightOrder(0, k);
      assert Low(s, k + 1) == Low(s, k) + Weight(ScalarBit(s, k), k);
      hide Weight, Low;
    }
  }

  // ----- windows

  /** Equal neighbouring bits only extend the sign. */
  lemma {:induction false} SignExtend(s: seq<u8>, i: nat)
    requires i < 8 * |s| && ScalarBit(s, i) == ScalarBit(s, i - 1)
    ensures Twos(s, i) == Twos(s, i - 1)
  {
  }

  /** What lies below a window, once bit c has been rounded into the window */
  lemma {:induction false} LowFromTwos(s: seq<u8>, c: int)
    requires -1 <= c < 8 * |s|
    ensures Low(s, c + 1) == Twos(s, c) + Weight(ScalarBit(s, c), c + 1)
  {
  }

  /** The n bits from position base up, as a number */
  method WindowBits(base: nat, n: nat, s: seq<u8>) returns (sum: int)
    requires base + n <= 8 * |s|
    ensures 0 <= sum < Pow2(n)
    ensures n > 0 ==> (sum >= Pow2(n - 1) <==> ScalarBit(s, base + n - 1) == 1)
    ensures Weight(sum, base) == Low(s, base + n) - Low(s, base)
  {
    hide ScalarBit;
    sum := 0;
    WeightOrder(0, base);
    for j := 0 to n
      invariant 0 <= sum < Pow2(j)
      invariant j > 0 ==> (sum >= Pow2(j - 1) <==> ScalarBit(s, base + j - 1) == 1)
      invariant Weight(sum, base) == Low(s, base + j) - Low(s, base)
    {
      var t := Weight(ScalarBit(s, base + j), j);
      WeightOrder(0, j);
      WeightTwice(ScalarBit(s, base + j), j, base);
      WeightAdd(sum, t, base);
      sum := sum + t;
    }
  }

  /** The value of the window of w bits that starts at bit i, rounded by the bit below it */
  method WindowValue(width: int, i: int, s: seq<u8>) returns (w: int, v: int)
    requires 2 <= width <= 5 && 0 <= i < 8 * |s|
    requires ScalarBit(s, i) != ScalarBit(s, i - 1)
    ensures 1 <= w <= width && w <= i + 1
    ensures Twos(s, i) == Weight(v, i - w + 1) + Twos(s, i - w)
    ensures v != 0 && -Pow2(w - 1) <= v <= Pow2(w - 1)
  {
    hide ScalarBit, Low, Weight, Twos;
    w := if width <= i + 1 then width else i + 1;
    var sum := WindowBits(i - w + 1, w - 1, s);
    v := -Weight(ScalarBit(s, i), w - 1) + sum + ScalarBit(s, i - w);
    WindowSum(s, i, w, sum, v);
    WindowBound(s, i, w, sum, v);
  }

  lemma {:induction false} WindowSum(s: seq<u8>, i: int, w: int, sum: int, v: int)
    requires 1 <= w <= i + 1 && 0 <= i < 8 * |s|
    requires Weight(sum, i - w + 1) == Low(s, i) - Low(s, i - w + 1)
    requires v == -Weight(ScalarBit(s, i), w - 1) + sum + ScalarBit(s, i - w)
    ensures Twos(s, i) == Weight(v, i - w + 1) + Twos(s, i - w)
  {
    hide ScalarBit, Low, Weight;
    LowFromTwos(s, i - w);
    WeightTwice(ScalarBit(s, i), w - 1, i - w + 1);
    WeightAdd(v, Weight(ScalarBit(s, i), w - 1), i - w + 1);
    WeightAdd(sum, ScalarBit(s, i - w), i - w + 1);
  }

  lemma {:induction false} WindowBound(s: seq<u8>, i: int, w: int, sum: int, v: int)
    requires 1 <= w <= i + 1 && 0 <= i < 8 * |s|
    requires ScalarBit(s, i) != ScalarBit(s, i - 1)
    requires 0 <= sum < Pow2(w - 1)
    requires w > 1 ==> (sum >= Pow2(w - 2) <==> ScalarBit(s, i - 1) == 1)
    requires v == -Weight(ScalarBit(s, i), w - 1) + sum + ScalarBit(s, i - w)
    ensures v != 0 && -Pow2(w - 1) <= v <= Pow2(w - 1)
  {
    WeightOrder(0, w - 1);
    WeightOrder(1, w - 1);
    if w > 1 {
      WeightOrder(1, w - 2);
    }
    hide ScalarBit;
  }

  // ----- the lowest set bit

  /** log2 of the lowest set bit of v, found with three mask tests; v is small, so eight bits
      of its two's complement form are enough */
  function LsbLog(v: int): nat {
    var x := (v % 0x100) as bv8;
    var lsb := x & (!x + 1);
    (if lsb & 0xAA != 0 then 1 else 0) + (if lsb & 0xCC != 0 then 2 else 0) + (if lsb & 0xF0 != 0 then 4 else 0)
  }

  lemma {:induction false} LsbLog01(v: int)
    ensures v % 2 == 1 ==> LsbLog(v) == 0
    ensures v % 4 == 2 ==> LsbLog(v) == 1
  {
  }

  lemma {:induction false} LsbLog2(v: int)
    ensures v % 8 == 4 ==> LsbLog(v) == 2
  {
  }

  lemma {:induction false} LsbLog3(v: int)
    ensures v % 16 == 8 ==> LsbLog(v) == 3
  {
  }

  lemma {:induction false} LsbLog4(v: int)
    ensures v % 32 == 16 ==> LsbLog(v) == 4
  {
  }

  /** A digit that a window of the given width may produce: odd, and so an index digit/2 into
      a table of the odd multiples 1, 3, ..., 2^(width-1) - 1 */
  predicate IsDigit(d: int, width: int)
    requires 1 <= width
  {
    d % 2 == 1 && -Pow2(width - 1) < d < Pow2(width - 1)
  }

  /** v is its odd part times a power of two that stays inside the window. */
  lemma {:induction false} WindowDigit(width: int, w: int, v: int)
    requires 2 <= width <= 5 && 1 <= w <= width
    requires v != 0 && -Pow2(w - 1) <= v <= Pow2(w - 1)
    ensures var k := LsbLog(v); k < w && 1 <= Pow2(k) && v == Weight(v / Pow2(k), k) && IsDigit(v / Pow2(k), width)
  {
    hide LsbLog, Weight;
    SmallWeights(1);
    if v % 2 == 1 {
      LsbLog01(v);
      SmallWeights(v);
    } else if v % 4 == 2 {
      LsbLog01(v);
      SmallWeights(v / 2);
    } else if v % 8 == 4 {
      LsbLog2(v);
      SmallWeights(v / 4);
    } else if v % 16 == 8 {
      LsbLog3(v);
      SmallWeights(v / 8);
    } else {
      LsbLog4(v);
      SmallWeights(v / 16);
    }
  }

  method OddPart(width: int, w: int, v: int) returns (k: nat, d: int)
    requires 2 <= width <= 5 && 1 <= w <= width
    requires v != 0 && -Pow2(w - 1) <= v <= Pow2(w - 1)
    ensures k < w && v == Weight(d, k) && IsDigit(d, width)
  {
    k := LsbLog(v);
    WindowDigit(width, w, v);
    d := v / Pow2(k);
  }

  // ----- the incremental recoder

  class SlideCtx {
    var nextIndex: int  // position of the next signed digit
    var nextDigit: int  // next signed digit
    var nextCheck: int  // position at which a new window is looked for, kept in 8 bits

    /** The position below which nothing has been recoded; the 8-bit counter wraps after 0. */
    ghost function Check(): int
      reads this
    {
      if nextCheck == 255 then -1 else nextCheck
    }

    /** The weighted digit that has been recoded and not yet returned */
    ghost function Pending(i: int): int
      reads this
    {
      if 0 <= nextIndex <= i then Weight(nextDigit, nextIndex) else 0
    }

    /** acc holds the digits returned for the positions above i: together with what is pending
        and what is not recoded yet, they make up the scalar. */
    ghost predicate Tracks(s: seq<u8>, width: int, i: int, acc: int)
      reads this
    {
      && |s| == 32 && 2 <= width <= 5 && -1 <= i <= 253
      && (0 <= nextCheck <= 253 || nextCheck == 255)
      && Check() <= i
      && (nextIndex >= 0 ==> Check() < nextIndex && IsDigit(nextDigit, width))
      && Weight(acc, i + 1) + Pending(i) + Twos(s, Check()) == BytesValue(s)
    }

    /** The top three bits of the scalar are not looked at. */
    constructor Init(s: seq<u8>)
      requires |s| == 32 && BytesValue(s) < Pow2(253)
      ensures 1 <= nextCheck <= 253
      ensures forall i, width :: nextCheck <= i <= 253 && 2 <= width <= 5 ==> Tracks(s, width, i, 0)
    {
      hide Weight, Pow2, ScalarBit, BytesValue, Low, IsDigit;
      var i := 252;
      HighBitsZero(s, 253, 253);
      ZeroWeight();
      while i > 0 && ScalarBit(s, i) == 0
        invariant 0 <= i <= 252
        invariant Low(s, i + 1) == BytesValue(s) && ScalarBit(s, i + 1) == 0
      {
        LowStep(s, i);
        i := i - 1;
      }
      nextCheck := i + 1;
      nextIndex := -1;
      nextDigit := -1;
    }

    /** Starts a new window at position i, if one is due; i is then above the next check. */
    method Recode(width: int, i: int, s: seq<u8>, ghost acc: int)
      requires 0 <= i && Tracks(s, width, i, acc)
      modifies this
      ensures Tracks(s, width, i, acc) && Check() < i
    {
      hide Weight, Twos, ScalarBit, LsbLog, BytesValue, IsDigit;
      if i == nextCheck {
        if ScalarBit(s, i) == ScalarBit(s, i - 1) {
          SignExtend(s, i);
          nextCheck := (nextCheck + 255) % 256;
        } else {
          assert Pending(i) == 0;
          var w, v := WindowValue(width, i, s);
          var k, d := OddPart(width, w, v);
          WeightTwice(d, k, i - w + 1);
          nextIndex, nextDigit := i - w + 1 + k, d;
          nextCheck := (nextCheck + 256 - w) % 256;
        }
      }
    }

    /** The digit at position i, or 0 */
    method Step(width: int, i: int, s: seq<u8>, ghost acc: int) returns (digit: int)
      requires 0 <= i && Tracks(s, width, i, acc)
      modifies this
      ensures Tracks(s, width, i - 1, 2 * acc + digit)
      ensures digit == 0 || IsDigit(digit, width)
    {
      Recode(width, i, s, acc);
      digit := if i == nextIndex then nextDigit else 0;
      WeightAdd(2 * acc, digit, i);
      WeightTwice(acc, 1, i);
      SmallWeights(acc);
      WeightOrder(0, i);
      hide Weight, Twos, BytesValue;
    }
  }
}
