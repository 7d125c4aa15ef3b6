/**
  The bitwise CRC-32 of the boot loader and the image check built on it.  A change confined to
  32 consecutive bits, wherever they start, always changes the checksum, so that the check never accepts it.
 */
module Crc32 {
  type byte = bv8

  const POLYNOMIAL: bv32 := 0xEDB88320

  /** One bit: shift right, and fold the polynomial in if a one fell out */
  function Shift(c: bv32): bv32 {
    if c & 1 == 1 then (c >> 1) ^ POLYNOMIAL else c >> 1
  }

  /** Exclusive or, and a byte as a word, under names that proofs can keep closed */
  function Xor(x: bv32, y: bv32): bv32 {
    x ^ y
  }

  function Wide(b: byte): bv32 {
    b as bv32
  }

  function Shift8(c: bv32): bv32 {
    Shift(Shift(Shift(Shift(Shift(Shift(Shift(Shift(c))))))))
  }

  function Fold(c: bv32, data: seq<byte>): bv32
    decreases |data|
  {
    if data == [] then c else Fold(Shift8(Xor(c, Wide(data[0]))), data[1..])
  }

  function Crc(data: seq<byte>): bv32 {
    !Fold(0xFFFFFFFF, data)
  }

  // ----- the two loops

  function Shifts(c: bv32, n: nat): bv32 {
    if n == 0 then c else Shift(Shifts(c, n - 1))
  }

  lemma {:induction false} EightShifts(c: bv32)
    ensures Shifts(c, 8) == Shift8(c)
  {
    hide Shift;
    assert Shifts(c, 1) == Shift(Shifts(c, 0));
    assert Shifts(c, 2) == Shift(Shifts(c, 1));
    assert Shifts(c, 3) == Shift(Shifts(c, 2));
    assert Shifts(c, 4) == Shift(Shifts(c, 3));
    assert Shifts(c, 5) == Shift(Shifts(c, 4));
    assert Shifts(c, 6) == Shift(Shifts(c, 5));
    assert Shifts(c, 7) == Shift(Shifts(c, 6));
    assert Shifts(c, 8) == Shift(Shifts(c, 7));
  }

  lemma {:induction false} FoldSnoc(c: bv32, data: seq<byte>, b: byte)
    ensures Fold(c, data + [b]) == Shift8(Xor(Fold(c, data), Wide(b)))
    decreases |data|
  {
    hide Shift8, Xor, Wide;
    if data == [] {
      assert (data + [b])[1..] == [];
    } else {
      assert (data + [b])[1..] == data[1..] + [b];
      FoldSnoc(Shift8(Xor(c, Wide(data[0]))), data[1..], b);
    }
  }

  /** The loop over the bits of one byte, with the mask computed as in the source */
  method ShiftOut(c: bv32) returns (crc: bv32)
    ensures crc == Shift8(c)
  {
    hide Shift, Shift8;
    crc := c;
    for bit := 0 to 8
      invariant crc == Shifts(c, bit)
    {
      ShiftMask(crc);
      var mask: bv32 := 0 - (crc & 1);
      crc := (crc >> 1) ^ (0xEDB88320 & mask);
    }
    EightShifts(c);
  }

  method Crc32Ieee(data: seq<byte>) returns (r: bv32)
    ensures r == Crc(data)
  {
    hide Shift, Shift8, Xor, Wide;
    var crc: bv32 := 0xFFFFFFFF;
    for i := 0 to |data|
      invariant crc == Fold(0xFFFFFFFF, data[..i])
    {
      FoldSnoc(0xFFFFFFFF, data[..i], data[i]);
      assert data[..i + 1] == data[..i] + [data[i]];
      crc := ShiftOut(Xor(crc, Wide(data[i])));
    }
    assert data[..|data|] == data;
    r := !crc;
  }

  /** The two's complement of a single bit is the mask that selects the polynomial. */
  lemma {:induction false} ShiftMask(c: bv32)
    ensures (c >> 1) ^ (0xEDB88320 & (0 - (c & 1))) == Shift(c)
  {
    LowBit(c);
    BitMask(c & 1);
    if c & 1 == 1 {
      assert 0xEDB88320 & 0xFFFFFFFF == POLYNOMIAL;
    } else {
      XorNothing(c >> 1);
    }
  }

  lemma {:induction false} LowBit(c: bv32)
    ensures c & 1 == 0 || c & 1 == 1
  {
  }

  lemma {:induction false} BitMask(b: bv32)
    requires b == 0 || b == 1
    ensures 0 - b == if b == 1 then 0xFFFFFFFF else 0
  {
  }

  lemma {:induction false} XorNothing(x: bv32)
    ensures x ^ (0xEDB88320 & 0) == x
  {
  }

  // ----- no information is lost

  lemma {:induction false} ShiftInjective(x: bv32, y: bv32)
    requires Shift(x) == Shift(y)
    ensures x == y
  {
  }

  lemma {:induction false} Shift8Injective(x: bv32, y: bv32)
    requires Shift8(x) == Shift8(y)
    ensures x == y
  {
    hide Shift;
    var x1, y1 := Shift(x), Shift(y);
    var x2, y2 := Shift(x1), Shift(y1);
    var x3, y3 := Shift(x2), Shift(y2);
    var x4, y4 := Shift(x3), Shift(y3);
    var x5, y5 := Shift(x4), Shift(y4);
    var x6, y6 := Shift(x5), Shift(y5);
    var x7, y7 := Shift(x6), Shift(y6);
    ShiftInjective(x7, y7);
    ShiftInjective(x6, y6);
    ShiftInjective(x5, y5);
    ShiftInjective(x4, y4);
    ShiftInjective(x3, y3);
    ShiftInjective(x2, y2);
    ShiftInjective(x1, y1);
    ShiftInjective(x, y);
  }

  lemma {:induction false} XorCancels(x: bv32, y: bv32, z: bv32)
    requires Xor(x, z) == Xor(y, z)
    ensures x == y
  {
  }

  // ----- the bit step is linear

  predicate Odd(c: bv32) {
    c & 1 == 1
  }

  function Half(c: bv32): bv32 {
    c >> 1
  }

  lemma {:induction false} HalfXor(x: bv32, y: bv32)
    ensures Half(Xor(x, y)) == Xor(Half(x), Half(y))
  {
  }

  lemma {:induction false} OddXor(x: bv32, y: bv32)
    ensures Odd(Xor(x, y)) <==> (Odd(x) != Odd(y))
  {
  }

  lemma {:induction false} XorMoves(a: bv32, b: bv32, p: bv32)
    ensures Xor(Xor(a, p), b) == Xor(Xor(a, b), p)
    ensures Xor(a, Xor(b, p)) == Xor(Xor(a, b), p)
    ensures Xor(Xor(a, p), Xor(b, p)) == Xor(a, b)
  {
  }

  lemma {:induction false} ShiftIs(c: bv32)
    ensures Shift(c) == if Odd(c) then Xor(Half(c), POLYNOMIAL) else Half(c)
  {
  }

  lemma {:induction false} ShiftXor(x: bv32, y: bv32)
    ensures Shift(Xor(x, y)) == Xor(Shift(x), Shift(y))
  {
    hide Shift, Odd, Half, Xor;
    ShiftIs(x);
    ShiftIs(y);
    ShiftIs(Xor(x, y));
    HalfXor(x, y);
    OddXor(x, y);
    XorMoves(Half(x), Half(y), POLYNOMIAL);
  }

  // ----- the same checksum one bit at a time

  /** The bit at position p of the data, each byte with its lowest bit first */
  predicate BitSet(data: seq<byte>, p: nat)
    requires p < 8 * |data|
  {
    ByteBit(data[p / 8], p % 8)
  }

  predicate ByteBit(b: byte, j: nat)
    requires j < 8
  {
    (b >> j) & 1 == 1
  }

  function Bit(on: bool): bv32 {
    if on then 1 else 0
  }

  /** The bits of a stream taken into the state one after the other */
  function Feed(c: bv32, bits: seq<bool>): bv32
    decreases |bits|
  {
    if bits == [] then c else Feed(Shift(Xor(c, Bit(bits[0]))), bits[1..])
  }

  /** The n lowest bits of a word, the lowest first */
  function Low(w: bv32, n: nat): (bits: seq<bool>)
    ensures |bits| == n
    decreases n
  {
    if n == 0 then [] else [Odd(w)] + Low(Half(w), n - 1)
  }

  /** The word without its n lowest bits */
  function Down(w: bv32, n: nat): bv32
    decreases n
  {
    if n == 0 then w else Down(Half(w), n - 1)
  }

  function Bits(data: seq<byte>): (bits: seq<bool>)
    ensures |bits| == 8 * |data|
    decreases |data|
  {
    if data == [] then [] else Low(Wide(data[0]), 8) + Bits(data[1..])
  }

  lemma {:induction false} ByteBitIsLow(b: byte, j: nat)
    requires j < 8
    ensures Low(Wide(b), 8)[j] == ByteBit(b, j)
  {
    hide Low;
    LowAt(Wide(b), 8, j);
    DownOfByte(b, j);
  }

  lemma {:induction false} LowAt(w: bv32, n: nat, j: nat)
    requires j < n
    ensures Low(w, n)[j] == Odd(Down(w, j))
    decreases n
  {
    hide Odd, Half;
    if j > 0 {
      LowAt(Half(w), n - 1, j - 1);
    }
  }

  lemma {:induction false} DownOfByte(b: byte, j: nat)
    requires j < 8
    ensures Odd(Down(Wide(b), j)) == ByteBit(b, j)
  {
    match j
    case 0 =>
    case 1 =>
    case 2 =>
    case 3 =>
    case 4 =>
    case 5 =>
    case 6 =>
    case 7 =>
  }

  lemma {:induction false} BitsAt(data: seq<byte>, p: nat)
    requires p < 8 * |data|
    ensures Bits(data)[p] == BitSet(data, p)
    decreases |data|
  {
    hide ByteBit, Low, Wide;
    if p < 8 {
      ByteBitIsLow(data[0], p);
    } else {
      BitsAt(data[1..], p - 8);
      assert (p - 8) / 8 == p / 8 - 1 && (p - 8) % 8 == p % 8;
    }
  }

  /** One bit step takes in the lowest bit of the word and leaves the others waiting, one place down. */
  lemma {:induction false} ShiftSplit(c: bv32, w: bv32)
    ensures Shift(Xor(c, w)) == Xor(Shift(Xor(c, Bit(Odd(w)))), Half(w))
  {
    assert w == Xor(Bit(Odd(w)), Rest(w));
    assert Shift(Rest(w)) == Half(w);
    hide Shift, Xor, Odd, Half, Bit, Rest;
    XorAssociative(c, Bit(Odd(w)), Rest(w));
    ShiftXor(Xor(c, Bit(Odd(w))), Rest(w));
  }

  function Rest(w: bv32): bv32 {
    w & 0xFFFF_FFFE
  }

  lemma {:induction false} ShiftsFirst(c: bv32, n: nat)
    ensures Shifts(c, n + 1) == Shifts(Shift(c), n)
    decreases n
  {
    hide Shift;
    if n > 0 {
      ShiftsFirst(c, n - 1);
    }
  }

  /** A word put into the state at once and shifted n times is its n lowest bits fed one by one, with the
      rest of the word still to come. */
  lemma {:induction false} WordIsFed(c: bv32, w: bv32, n: nat)
    ensures Shifts(Xor(c, w), n) == Xor(Feed(c, Low(w, n)), Down(w, n))
    decreases n
  {
    hide Shift, Xor, Odd, Half, Bit;
    if n > 0 {
      ShiftsFirst(Xor(c, w), n - 1);
      ShiftSplit(c, w);
      var bits := Low(w, n);
      assert bits[0] == Odd(w) && bits[1..] == Low(Half(w), n - 1);
      WordIsFed(Shift(Xor(c, Bit(Odd(w)))), Half(w), n - 1);
    }
  }

  lemma {:induction false} ByteRunsOut(b: byte)
    ensures Down(Wide(b), 8) == 0
  {
  }

  lemma {:induction false} ByteIsFed(c: bv32, b: byte)
    ensures Shift8(Xor(c, Wide(b))) == Feed(c, Low(Wide(b), 8))
  {
    hide Shift8, Shifts, Xor, Wide, Low, Down, Feed;
    EightShifts(Xor(c, Wide(b)));
    WordIsFed(c, Wide(b), 8);
    ByteRunsOut(b);
    XorZero(Feed(c, Low(Wide(b), 8)));
  }

  lemma {:induction false} FeedAppend(c: bv32, x: seq<bool>, y: seq<bool>)
    ensures Feed(c, x + y) == Feed(Feed(c, x), y)
    decreases |x|
  {
    hide Shift, Xor, Bit;
    if x == [] {
      assert x + y == y;
    } else {
      assert (x + y)[1..] == x[1..] + y;
      FeedAppend(Shift(Xor(c, Bit(x[0]))), x[1..], y);
    }
  }

  /** The loop over bytes is a loop over the bits of the data. */
  lemma {:induction false} FoldIsFeed(c: bv32, data: seq<byte>)
    ensures Fold(c, data) == Feed(c, Bits(data))
    decreases |data|
  {
    hide Shift8, Xor, Wide, Low, Feed;
    if data == [] {
      FeedNothing(c);
    } else {
      var first := Low(Wide(data[0]), 8);
      ByteIsFed(c, data[0]);
      FeedAppend(c, first, Bits(data[1..]));
      FoldIsFeed(Feed(c, first), data[1..]);
    }
  }

  lemma {:induction false} FeedNothing(c: bv32)
    ensures Feed(c, []) == c
  {
  }

  // ----- any 32 bits leave their trace

  /** Feeding the same bits into two different states keeps them different. */
  lemma {:induction false} FeedInjective(x: bv32, y: bv32, bits: seq<bool>)
    requires Feed(x, bits) == Feed(y, bits)
    ensures x == y
    decreases |bits|
  {
    hide Shift, Xor, Bit;
    if bits != [] {
      var d := Bit(bits[0]);
      FeedInjective(Shift(Xor(x, d)), Shift(Xor(y, d)), bits[1..]);
      ShiftInjective(Xor(x, d), Xor(y, d));
      XorCancels(x, y, d);
    }
  }

  /** The bits from position n up */
  function From(n: nat): bv32
    decreases n
  {
    if n == 0 then 0xFFFF_FFFF else Double(From(n - 1))
  }

  function Double(x: bv32): bv32 {
    x << 1
  }

  predicate Fits(d: bv32, n: nat) {
    Disjoint(d, From(n))
  }

  predicate Disjoint(d: bv32, m: bv32) {
    d & m == 0
  }

  predicate Top(m: bv32) {
    m & 0x8000_0000 != 0
  }

  lemma {:induction false} FromNested(n: nat)
    ensures From(n + 1) & From(n) == From(n + 1)
    decreases n
  {
    if n > 0 {
      FromNested(n - 1);
      DoubleNested(From(n), From(n - 1));
    }
  }

  lemma {:induction false} DoubleNested(x: bv32, y: bv32)
    requires x & y == x
    ensures Double(x) & Double(y) == Double(x)
  {
  }

  lemma {:induction false} TopNested(x: bv32, y: bv32)
    requires x & y == x && Top(x)
    ensures Top(y)
  {
  }

  lemma {:induction false} FromFour(n: nat)
    ensures From(n + 4) == Double(Double(Double(Double(From(n)))))
  {
    hide Double;
    assert From(n + 4) == Double(From(n + 3));
    assert From(n + 3) == Double(From(n + 2));
    assert From(n + 2) == Double(From(n + 1));
  }

  lemma {:induction false} OnlyTop()
    ensures From(31) == 0x8000_0000
  {
    FromFour(0);
    FromFour(4);
    FromFour(8);
    FromFour(12);
    FromFour(16);
    FromFour(20);
    FromFour(24);
    assert From(29) == Double(From(28));
    assert From(30) == Double(From(29));
  }

  lemma {:induction false} FromTop(n: nat)
    requires n <= 31
    ensures Top(From(n))
    decreases 31 - n
  {
    if n == 31 {
      OnlyTop();
    } else {
      FromTop(n + 1);
      FromNested(n);
      TopNested(From(n + 1), From(n));
    }
  }

  /** The polynomial reaches the top bit, which halving clears. */
  lemma {:induction false} PolynomialShows(h: bv32, m: bv32)
    requires Top(m)
    ensures !Disjoint(Xor(Half(h), POLYNOMIAL), m)
  {
    assert !Top(Half(h));
    assert Top(Xor(Half(h), POLYNOMIAL));
  }

  lemma {:induction false} DisjointDouble(z: bv32, m: bv32)
    requires Disjoint(Half(z), m)
    ensures Disjoint(z, Double(m)) && Disjoint(Xor(z, 1), Double(m))
  {
  }

  /** A bit step whose result leaves the top bit clear folded no polynomial in. */
  lemma {:induction false} ShiftBack(z: bv32, m: bv32)
    requires Top(m) && Disjoint(Shift(z), m)
    ensures !Odd(z) && Disjoint(z, Double(m)) && Disjoint(Xor(z, 1), Double(m))
  {
    hide Shift, Odd, Half, Xor, Double, Top, Disjoint;
    ShiftIs(z);
    PolynomialShows(z, m);
    DisjointDouble(z, m);
  }

  lemma {:induction false} XorSelf(x: bv32)
    ensures Xor(x, x) == 0
  {
  }

  lemma {:induction false} NothingDisjoint(m: bv32)
    ensures Disjoint(0, m)
  {
  }

  /** The difference of two states before and after they took in a bit each */
  lemma {:induction false} BitDifference(x: bv32, y: bv32, p: bool, q: bool)
    ensures Xor(Xor(x, Bit(p)), Xor(y, Bit(q))) == if p == q then Xor(x, y) else Xor(Xor(x, y), 1)
  {
    hide Xor;
    XorZero(x);
    XorZero(y);
    XorMoves(x, y, 1);
  }

  lemma {:induction false} XorTwice(d: bv32)
    ensures Xor(Xor(d, 1), 1) == d
  {
  }

  lemma {:induction false} OneIsOdd()
    ensures Odd(Xor(0, 1))
  {
  }

  /** States that n <= 32 bits each bring together differ in the n lowest bits only, and from the same
      state only the same bits get there. */
  lemma {:induction false} BitsInjective(x: bv32, y: bv32, u: seq<bool>, v: seq<bool>)
    requires |u| == |v| <= 32 && Feed(x, u) == Feed(y, v)
    ensures Fits(Xor(x, y), |u|)
    ensures x == y ==> u == v
    decreases |u|
  {
    hide Shift, Xor, Bit, Odd, Disjoint, Double, Top;
    if u == [] {
      XorSelf(x);
      NothingDisjoint(From(0));
    } else {
      var a, b := Xor(x, Bit(u[0])), Xor(y, Bit(v[0]));
      BitsInjective(Shift(a), Shift(b), u[1..], v[1..]);
      ShiftXor(a, b);
      FromTop(|u| - 1);
      ShiftBack(Xor(a, b), From(|u| - 1));
      BitDifference(x, y, u[0], v[0]);
      XorTwice(Xor(x, y));
      XorSelf(x);
      OneIsOdd();
      assert u == [u[0]] + u[1..] && v == [v[0]] + v[1..];
    }
  }

  lemma {:induction false} ByteInjective(b: byte, c: byte)
    requires Low(Wide(b), 8) == Low(Wide(c), 8)
    ensures b == c
  {
    hide Shift8, Xor, Wide, Low;
    ByteIsFed(0, b);
    ByteIsFed(0, c);
    Shift8Injective(Xor(0, Wide(b)), Xor(0, Wide(c)));
    XorCommutes(0, Wide(b));
    XorCommutes(0, Wide(c));
    XorCancels(Wide(b), Wide(c), 0);
    WideInjective(b, c);
  }

  lemma {:induction false} WideInjective(b: byte, c: byte)
    requires Wide(b) == Wide(c)
    ensures b == c
  {
  }

  lemma {:induction false} BitsDetermine(x: seq<byte>, y: seq<byte>)
    requires |x| == |y| && Bits(x) == Bits(y)
    ensures x == y
    decreases |x|
  {
    hide Low, Wide;
    if x != [] {
      assert Low(Wide(x[0]), 8) == Bits(x)[..8] && Low(Wide(y[0]), 8) == Bits(y)[..8];
      ByteInjective(x[0], y[0]);
      assert Bits(x[1..]) == Bits(x)[8..] && Bits(y[1..]) == Bits(y)[8..];
      BitsDetermine(x[1..], y[1..]);
      assert x == [x[0]] + x[1..] && y == [y[0]] + y[1..];
    }
  }

  lemma {:induction false} StreamInjective(c: bv32, u: seq<bool>, v: seq<bool>, k: nat, m: nat)
    requires |u| == |v| && k <= m <= |u| && m <= k + 32
    requires u[..k] == v[..k] && u[m..] == v[m..] && Feed(c, u) == Feed(c, v)
    ensures u == v
  {
    hide Feed;
    assert u == u[..k] + u[k..m] + u[m..] && v == v[..k] + v[k..m] + v[m..];
    FeedAppend(c, u[..k] + u[k..m], u[m..]);
    FeedAppend(c, v[..k] + v[k..m], v[m..]);
    FeedAppend(c, u[..k], u[k..m]);
    FeedAppend(c, v[..k], v[k..m]);
    var d := Feed(c, u[..k]);
    FeedInjective(Feed(d, u[k..m]), Feed(d, v[k..m]), u[m..]);
    BitsInjective(d, d, u[k..m], v[k..m]);
  }

  /** Equal at every bit outside the 32 bits from position k on */
  predicate SameOutside(x: seq<byte>, y: seq<byte>, k: nat)
    requires |x| == |y|
  {
    forall p: nat :: p < 8 * |x| && (p < k || k + 32 <= p) ==> BitSet(x, p) == BitSet(y, p)
  }

  /** Two messages that differ only within 32 consecutive bits, wherever these start, have different checksums. */
  lemma {:induction false} BitBurstDetected(x: seq<byte>, y: seq<byte>, k: nat)
    requires |x| == |y| && SameOutside(x, y, k) && x != y
    ensures Crc(x) != Crc(y)
  {
    hide Fold, Feed, Bits, BitSet;
    var u, v, n := Bits(x), Bits(y), 8 * |x|;
    var lo, hi := if k <= n then k else n, if k + 32 <= n then k + 32 else n;
    forall p: nat | p < n && (p < k || k + 32 <= p) ensures u[p] == v[p] {
      BitsAt(x, p);
      BitsAt(y, p);
    }
    FoldIsFeed(0xFFFFFFFF, x);
    FoldIsFeed(0xFFFFFFFF, y);
    if Fold(0xFFFFFFFF, x) == Fold(0xFFFFFFFF, y) {
      StreamInjective(0xFFFFFFFF, u, v, lo, hi);
      BitsDetermine(x, y);
      assert false;
    }
    NotInjective(Fold(0xFFFFFFFF, x), Fold(0xFFFFFFFF, y));
  }

  /** 32 bits are the most that can be promised: these messages differ within 33. */
  lemma {:induction false} LongerBurstMissed()
    ensures Crc([0, 0, 0, 0, 0]) == Crc([0x41, 0x06, 0x71, 0xDB, 0x01])
  {
    var x: seq<byte>, y: seq<byte> := [0, 0, 0, 0, 0], [0x41, 0x06, 0x71, 0xDB, 0x01];
    FoldFive(0xFFFFFFFF, x);
    FoldFive(0xFFFFFFFF, y);
  }

  lemma {:induction false} FoldFive(c: bv32, w: seq<byte>)
    requires |w| == 5
    ensures Fold(c, w) ==
            var d := Shift8(Xor(Shift8(Xor(Shift8(Xor(c, Wide(w[0]))), Wide(w[1]))), Wide(w[2])));
            Shift8(Xor(Shift8(Xor(d, Wide(w[3]))), Wide(w[4])))
  {
    hide Shift8, Xor, Wide;
    var c1 := Shift8(Xor(c, Wide(w[0])));
    var c2 := Shift8(Xor(c1, Wide(w[1])));
    var c3 := Shift8(Xor(c2, Wide(w[2])));
    var c4 := Shift8(Xor(c3, Wide(w[3])));
    var c5 := Shift8(Xor(c4, Wide(w[4])));
    assert w[1..][1..] == w[2..] && w[2..][1..] == w[3..] && w[3..][1..] == w[4..] && w[4..][1..] == [];
    assert Fold(c, w) == Fold(c1, w[1..]) == Fold(c2, w[2..]) == Fold(c3, w[3..]) == Fold(c4, w[4..]);
    assert Fold(c4, w[4..]) == Fold(c5, []) == c5;
  }

  /** Two messages that differ only within four consecutive bytes have different checksums. */
  lemma {:induction false} BurstDetected(before: seq<byte>, v: seq<byte>, w: seq<byte>, after: seq<byte>)
    requires |v| == |w| <= 4 && v != w
    ensures Crc(before + v + after) != Crc(before + w + after)
  {
    hide Crc, ByteBit;
    var x, y, k := before + v + after, before + w + after, |before|;
    assert x[k..k + |v|] == v && y[k..k + |w|] == w;
    forall p: nat | p < 8 * |x| && (p < 8 * k || 8 * k + 32 <= p) ensures BitSet(x, p) == BitSet(y, p) {
      assert p / 8 < k || k + 4 <= p / 8;
    }
    BitBurstDetected(x, y, 8 * k);
  }

  lemma {:induction false} XorAssociative(x: bv32, y: bv32, z: bv32)
    ensures Xor(Xor(x, y), z) == Xor(x, Xor(y, z))
  {
  }

  lemma {:induction false} XorZero(x: bv32)
    ensures Xor(x, 0) == x
  {
  }

  lemma {:induction false} XorCommutes(x: bv32, y: bv32)
    ensures Xor(x, y) == Xor(y, x)
  {
  }

  lemma {:induction false} NotInjective(x: bv32, y: bv32)
    requires x != y
    ensures !x != !y
  {
  }

  // ----- the image check

  const VECTOR_ADDRESS: int := 0x0800_8200
  const MAX_SIZE: int := 0x0810_0000 - 0x0800_8200

  datatype Header = Header(magic: int, headerVersion: int, vectorAddress: int, imageSize: int, imageCrc: bv32)

  datatype Status = Ok | BadMagic | BadHeaderVersion | BadVectorAddress | BadSize | BadStack | BadResetVector | BadCrc

  function LoadWord(b: seq<byte>): int
    requires |b| == 4
  {
    b[0] as int + 0x100 * b[1] as int + 0x1_0000 * b[2] as int + 0x100_0000 * b[3] as int
  }

  /** The check of the header against the flash that starts at the vector address */
  function Validate(h: Header, flash: seq<byte>): Status
    requires |flash| == MAX_SIZE
  {
    if h.magic != 0x31474D49 then BadMagic
    else if h.headerVersion != 1 then BadHeaderVersion
    else if h.vectorAddress != VECTOR_ADDRESS then BadVectorAddress
    else if h.imageSize < 8 || h.imageSize > MAX_SIZE then BadSize
    else
      var msp, reset := LoadWord(flash[0..4]), LoadWord(flash[4..8]);
      var entry := reset - reset % 2;
      if msp < 0x2000_0000 || msp > 0x2002_0000 then BadStack
      else if reset % 2 == 0 || entry < h.vectorAddress || entry >= h.vectorAddress + h.imageSize then BadResetVector
      else if Crc(flash[..h.imageSize]) != h.imageCrc then BadCrc
      else Ok
  }

  method ImageValidate(h: Header, flash: seq<byte>) returns (status: Status, computed: bv32)
    requires |flash| == MAX_SIZE
    ensures status == Validate(h, flash)
    ensures status == Ok || status == BadCrc ==> computed == Crc(flash[..h.imageSize])
  {
    hide LoadWord, Crc;
    computed := 0;
    if h.magic != 0x31474D49 {
      return BadMagic, computed;
    }
    if h.headerVersion != 1 {
      return BadHeaderVersion, computed;
    }
    if h.vectorAddress != VECTOR_ADDRESS {
      return BadVectorAddress, computed;
    }
    if h.imageSize < 8 || h.imageSize > MAX_SIZE {
      return BadSize, computed;
    }
    var msp, reset := LoadWord(flash[0..4]), LoadWord(flash[4..8]);
    if msp < 0x2000_0000 || msp > 0x2002_0000 {
      return BadStack, computed;
    }
    var entry := reset - reset % 2;
    if reset % 2 == 0 || entry < h.vectorAddress || entry >= h.vectorAddress + h.imageSize {
      return BadResetVector, computed;
    }
    computed := Crc32Ieee(flash[..h.imageSize]);
    status := if computed != h.imageCrc then BadCrc else Ok;
  }

  /** Flash contents that differ from an accepted image only within 32 consecutive bits are accepted
      exactly if the image itself is unchanged. */
  lemma {:induction false} BitDamageDetected(h: Header, good: seq<byte>, bad: seq<byte>, k: nat)
    requires |good| == |bad| == MAX_SIZE && SameOutside(good, bad, k)
    requires Validate(h, good) == Ok
    ensures Validate(h, bad) == Ok <==> good[..h.imageSize] == bad[..h.imageSize]
  {
    hide LoadWord, Crc, ByteBit;
    var x, y := good[..h.imageSize], bad[..h.imageSize];
    if x == y {
      assert good[0..4] == x[0..4] && bad[0..4] == y[0..4] && good[4..8] == x[4..8] && bad[4..8] == y[4..8];
    } else {
      forall p: nat | p < 8 * |x| && (p < k || k + 32 <= p) ensures BitSet(x, p) == BitSet(y, p) {
        assert BitSet(good, p) == BitSet(bad, p);
      }
      BitBurstDetected(x, y, k);
    }
  }

  /** The same for four consecutive bytes */
  lemma {:induction false} DamageDetected(h: Header, good: seq<byte>, bad: seq<byte>, k: nat)
    requires |good| == |bad| == MAX_SIZE && k + 4 <= MAX_SIZE
    requires good[..k] == bad[..k] && good[k + 4..] == bad[k + 4..]
    requires Validate(h, good) == Ok
    ensures Validate(h, bad) == Ok <==> good[..h.imageSize] == bad[..h.imageSize]
  {
    hide Validate, ByteBit;
    forall p: nat | p < 8 * |good| && (p < 8 * k || 8 * k + 32 <= p) ensures BitSet(good, p) == BitSet(bad, p) {
      var i := p / 8;
      assert if i < k then good[i] == good[..k][i] else good[i] == good[k + 4..][i - k - 4];
    }
    BitDamageDetected(h, good, bad, 8 * k);
  }
}
