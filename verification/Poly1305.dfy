/**
  The Poly1305 authenticator (section 2.5 of RFC 8439) on 32-bit limbs with delayed carries.
 */
module Poly1305 {
  import opened Common
  import opened Limbs

  /** 2^130 - 5 */
  const P: int := 0x3_ffffffff_ffffffff_ffffffff_fffffffb
  const TWO_128: int := 0x1_00000000_00000000_00000000_00000000

  function TimesP(x: int): int {
    0x3_ffffffff_ffffffff_ffffffff_fffffffb * x
  }

  // ----- one block

  /** Five words as a number */
  function Five(x0: int, x1: int, x2: int, x3: int, x4: int): int {
    x0 + 0x1_00000000 * x1 + 0x1_00000000_00000000 * x2 + 0x1_00000000_00000000_00000000 * x3
    + 0x1_00000000_00000000_00000000_00000000 * x4
  }

  lemma {:induction false} TimesFive(r: int, s0: int, s1: int, s2: int, s3: int, s4: int)
    ensures Times(Five(s0, s1, s2, s3, s4), r) == Five(Times(s0, r), Times(s1, r), Times(s2, r), Times(s3, r),
      Times(s4, r))
  {
    var s := Five(s0, s1, s2, s3, s4);
    assert s * r == s0 * r + 0x1_00000000 * (s1 * r) + 0x1_00000000_00000000 * (s2 * r)
                  + 0x1_00000000_00000000_00000000 * (s3 * r) + 0x1_00000000_00000000_00000000_00000000 * (s4 * r);
  }

  /** r with the clamping of section 2.5: the top four bits of every word, and the low two bits of
      all words but the first, are clear. */
  predicate Clamped(r: seq<u32>) {
    && |r| == 4 && r[0] < 0x1000_0000 && r[1] < 0x1000_0000 && r[2] < 0x1000_0000 && r[3] < 0x1000_0000
    && r[1] % 4 == 0 && r[2] % 4 == 0 && r[3] % 4 == 0
  }

  function RValue(r: seq<u32>): int
    requires |r| == 4
  {
    Five(r[0], r[1], r[2], r[3], 0)
  }

  lemma {:induction false} TimesFour(s: int, r: int)
    requires r % 4 == 0
    ensures Times(s, r) == 4 * Times(s, r / 4) && Times(s, r / 4 + r) == 5 * Times(s, r / 4)
  {
    var q := r / 4;
    assert r == 4 * q;
    assert s * (4 * q) == 4 * (s * q);
  }

  lemma {:induction false} TimesLow(s: int, r: int)
    ensures Times(s, r) == 4 * Times(s, r / 4) + Times(s, r % 4) && Times(s, r / 4 * 5) == 5 * Times(s, r / 4)
  {
    var q := r / 4;
    assert s * (4 * q + r % 4) == 4 * (s * q) + s * (r % 4);
  }

  /** (h + c) * r without carries: products that fall at or past 2^130 come back times 5. */
  lemma {:induction false} ColumnsValue(s0: int, s1: int, s2: int, s3: int, s4: int, r: seq<u32>) returns (k: int)
    requires Clamped(r)
    ensures var rr0, rr1, rr2, rr3, rr4 := r[0] / 4 * 5, r[1] / 4 + r[1], r[2] / 4 + r[2], r[3] / 4 + r[3], r[0] % 4;
            Times(Five(s0, s1, s2, s3, s4), RValue(r)) == TimesP(k) + Five(
              Times(s0, r[0]) + Times(s1, rr3) + Times(s2, rr2) + Times(s3, rr1) + Times(s4, rr0),
              Times(s0, r[1]) + Times(s1, r[0]) + Times(s2, rr3) + Times(s3, rr2) + Times(s4, rr1),
              Times(s0, r[2]) + Times(s1, r[1]) + Times(s2, r[0]) + Times(s3, rr3) + Times(s4, rr2),
              Times(s0, r[3]) + Times(s1, r[2]) + Times(s2, r[1]) + Times(s3, r[0]) + Times(s4, rr3),
              Times(s4, rr4))
  {
    var q0, q1, q2, q3 := r[0] / 4, r[1] / 4, r[2] / 4, r[3] / 4;
    TimesLow(s4, r[0]);
    TimesFour(s3, r[1]);
    TimesFour(s4, r[1]);
    TimesFour(s2, r[2]);
    TimesFour(s3, r[2]);
    TimesFour(s4, r[2]);
    TimesFour(s1, r[3]);
    TimesFour(s2, r[3]);
    TimesFour(s3, r[3]);
    TimesFour(s4, r[3]);
    RowsOfProduct(s0, s1, s2, s3, s4, r);
    hide Times, RValue;
    k := Times(s4, q0) + Times(s3, q1) + 0x1_00000000 * Times(s4, q1)
       + Times(s2, q2) + 0x1_00000000 * Times(s3, q2) + 0x1_00000000_00000000 * Times(s4, q2)
       + Times(s1, q3) + 0x1_00000000 * Times(s2, q3) + 0x1_00000000_00000000 * Times(s3, q3)
       + 0x1_00000000_00000000_00000000 * Times(s4, q3);
  }

  lemma {:induction false} RowsOfProduct(s0: int, s1: int, s2: int, s3: int, s4: int, r: seq<u32>)
    requires |r| == 4
    ensures Times(Five(s0, s1, s2, s3, s4), RValue(r)) ==
      Five(Times(s0, r[0]), Times(s1, r[0]), Times(s2, r[0]), Times(s3, r[0]), Times(s4, r[0]))
      + 0x1_00000000 * Five(Times(s0, r[1]), Times(s1, r[1]), Times(s2, r[1]), Times(s3, r[1]), Times(s4, r[1]))
      + 0x1_00000000_00000000 * Five(Times(s0, r[2]), Times(s1, r[2]), Times(s2, r[2]), Times(s3, r[2]),
          Times(s4, r[2]))
      + 0x1_00000000_00000000_00000000 * Five(Times(s0, r[3]), Times(s1, r[3]), Times(s2, r[3]), Times(s3, r[3]),
          Times(s4, r[3]))
  {
    var s := Five(s0, s1, s2, s3, s4);
    TimesFive(r[0], s0, s1, s2, s3, s4);
    TimesFive(r[1], s0, s1, s2, s3, s4);
    TimesFive(r[2], s0, s1, s2, s3, s4);
    TimesFive(r[3], s0, s1, s2, s3, s4);
    TimesRight(s, r[0], r[1], r[2], r[3]);
    hide Five, Times;
  }

  lemma {:induction false} TimesRight(s: int, r0: int, r1: int, r2: int, r3: int)
    ensures Times(s, Five(r0, r1, r2, r3, 0)) == Times(s, r0) + 0x1_00000000 * Times(s, r1)
              + 0x1_00000000_00000000 * Times(s, r2) + 0x1_00000000_00000000_00000000 * Times(s, r3)
  {
  }

  /** The accumulator between blocks: at most 4_ffffffff_ffffffff_ffffffff_ffffffff */
  predicate Accumulator(h: seq<u32>) {
    |h| == 5 && h[4] <= 4
  }

  function HValue(h: seq<u32>): int
    requires |h| == 5
  {
    Five(h[0], h[1], h[2], h[3], h[4])
  }

  lemma {:induction false} TermFits(s: int, sMax: int, r: int, rMax: int)
    requires 0 <= s <= sMax && 0 <= r <= rMax
    ensures 0 <= Times(s, r) <= Times(sMax, rMax)
  {
    MulLe(s, sMax, r);
    MulLe(r, rMax, sMax);
    MulLe(0, s, r);
  }

  /** Products of a word sum (up to 33 bits) and of the top sum (up to 5) with words of r */
  lemma {:induction false} ProductsFit(s: int, s4: int, r: int, rr: int)
    requires 0 <= s <= 0x1_FFFF_FFFE && 0 <= s4 <= 5 && 0 <= r <= 0xFFF_FFFF && 0 <= rr <= 0x13FF_FFFB
    ensures 0 <= Times(s, r) <= 0x1FFF_FFFD_E000_0002
    ensures 0 <= Times(s, rr) <= 0x27FF_FFF5_D800_000A
    ensures 0 <= Times(s4, rr) <= 0x63FF_FFE7
  {
    TermFits(s, 0x1_FFFF_FFFE, r, 0xFFF_FFFF);
    TermFits(s, 0x1_FFFF_FFFE, rr, 0x13FF_FFFB);
    TermFits(s4, 5, rr, 0x13FF_FFFB);
  }

  /** The carry chain: the five columns are brought back to words, modulo P. */
  method Reduce(x0: u64, x1: u64, x2: u64, x3: u64, x4: u32) returns (h: seq<u32>, ghost k: int)
    requires x0 <= 0x9800_0000_0000_0000 && x1 <= 0x9800_0000_0000_0000 && x2 <= 0x9800_0000_0000_0000
    requires x3 <= 0x8000_0000_0000_0000 - 0x1_0000_0000 && x4 <= 15
    ensures Accumulator(h)
    ensures HValue(h) == Five(x0, x1, x2, x3, x4) - TimesP(k)
  {
    var u5: u32 := x3 / 0x1_0000_0000 + x4;
    var five: u32 := u5 / 4 * 5;
    var u0: u64 := five + x0 % 0x1_0000_0000;
    var u1: u64 := u0 / 0x1_0000_0000 + x1 % 0x1_0000_0000 + x0 / 0x1_0000_0000;
    var u2: u64 := u1 / 0x1_0000_0000 + x2 % 0x1_0000_0000 + x1 / 0x1_0000_0000;
    var u3: u64 := u2 / 0x1_0000_0000 + x3 % 0x1_0000_0000 + x2 / 0x1_0000_0000;
    var u4: u32 := u3 / 0x1_0000_0000 + u5 % 4;
    h := [u0 % 0x1_0000_0000, u1 % 0x1_0000_0000, u2 % 0x1_0000_0000, u3 % 0x1_0000_0000, u4];
    k := u5 / 4;
  }

  function Four(b: seq<u8>): int
    requires |b| == 16
  {
    Five(Load32(b), Load32(b[4..]), Load32(b[8..]), Load32(b[12..]), 0)
  }

  lemma {:induction false} FourIsValue(b: seq<u8>)
    requires |b| == 16
    ensures Four(b) == BytesValue(b)
  {
    hide Load32;
    BytesValue4(b);
    BytesValue4(b[4..]);
    BytesValue4(b[8..]);
    BytesValue4(b[12..]);
    assert b[4..][4..] == b[8..] && b[8..][4..] == b[12..] && b[12..][4..] == [];
    assert BytesValue([]) == 0;
    hide BytesValue;
  }

  /** Four 64-bit products and one 32-bit product, summed from left to right in 64 bits */
  predicate SumFits(a: int, b: int, c: int, d: int, e: int) {
    && IsU64(a) && IsU64(b) && IsU64(c) && IsU64(d) && IsU32(e)
    && IsU64(a + b) && IsU64(a + b + c) && IsU64(a + b + c + d) && IsU64(a + b + c + d + e)
  }

  /** Every operation on the way from the sums s and the key words r to the five columns stays within the
      width that the source gives it. */
  predicate ProductFits(s0: int, s1: int, s2: int, s3: int, s4: int, r: seq<u32>)
    requires |r| == 4
  {
    var r0: int, r1: int, r2: int, r3: int := r[0], r[1], r[2], r[3];
    var rr0, rr1, rr2, rr3, rr4 := r0 / 4 * 5, r1 / 4 + r1, r2 / 4 + r2, r3 / 4 + r3, r0 % 4;
    && IsU64(s0) && IsU64(s1) && IsU64(s2) && IsU64(s3) && IsU32(s4)
    && IsU32(rr0) && IsU32(rr1) && IsU32(rr2) && IsU32(rr3) && IsU32(rr4)
    && SumFits(Times(s0, r0), Times(s1, rr3), Times(s2, rr2), Times(s3, rr1), Times(s4, rr0))
    && SumFits(Times(s0, r1), Times(s1, r0), Times(s2, rr3), Times(s3, rr2), Times(s4, rr1))
    && SumFits(Times(s0, r2), Times(s1, r1), Times(s2, r0), Times(s3, rr3), Times(s4, rr2))
    && SumFits(Times(s0, r3), Times(s1, r2), Times(s2, r1), Times(s3, r0), Times(s4, rr3))
    && IsU32(Times(s4, rr4))
  }

  method Column(a: u64, b: u64, c: u64, d: u64, e: u32) returns (x: u64)
    requires SumFits(a, b, c, d, e)
    ensures x == a + b + c + d + e
  {
    x := a + b;
    x := x + c;
    x := x + d;
    x := x + e;
  }

  /** h = (h + block) * r modulo P, where end (0 or 1) is the bit above the 16 bytes; no 32-bit or
      64-bit operation overflows. */
  method Block(h: seq<u32>, r: seq<u32>, b: seq<u8>, end: u32) returns (h': seq<u32>, ghost k: int)
    requires Accumulator(h) && Clamped(r) && |b| == 16 && end <= 1
    ensures Accumulator(h')
    ensures HValue(h') == Times(HValue(h) + BytesValue(b) + TWO_128 * end, RValue(r)) - TimesP(k)
    ensures ProductFits(h[0] + Load32(b) as int, h[1] + Load32(b[4..]) as int, h[2] + Load32(b[8..]) as int,
                        h[3] + Load32(b[12..]) as int, h[4] + end as int, r)
  {
    hide Times, Load32, BytesValue, RValue, HValue, Five, Four, TimesP;
    var r0, r1, r2, r3 := r[0], r[1], r[2], r[3];
    var rr0: u32, rr1: u32, rr2: u32, rr3: u32, rr4: u32 := r0 / 4 * 5, r1 / 4 + r1, r2 / 4 + r2, r3 / 4 + r3, r0 % 4;
    var s0: u64, s1: u64 := h[0] + Load32(b) as int, h[1] + Load32(b[4..]) as int;
    var s2: u64, s3: u64 := h[2] + Load32(b[8..]) as int, h[3] + Load32(b[12..]) as int;
    var s4: u32 := h[4] + end;
    FourIsValue(b);
    SumValue(h, b, end, s0, s1, s2, s3, s4);
    ghost var k1 := ColumnsValue(s0, s1, s2, s3, s4, r);
    ColumnsFit(s0, s1, s2, s3, s4, r);
    var x0 := Column(Times(s0, r0), Times(s1, rr3), Times(s2, rr2), Times(s3, rr1), Times(s4, rr0));
    var x1 := Column(Times(s0, r1), Times(s1, r0), Times(s2, rr3), Times(s3, rr2), Times(s4, rr1));
    var x2 := Column(Times(s0, r2), Times(s1, r1), Times(s2, r0), Times(s3, rr3), Times(s4, rr2));
    var x3 := Column(Times(s0, r3), Times(s1, r2), Times(s2, r1), Times(s3, r0), Times(s4, rr3));
    var x4: u32 := Times(s4, rr4);
    ghost var k2;
    h', k2 := Reduce(x0, x1, x2, x3, x4);
    k := k1 + k2;
    TimesPAdd(k1, k2);
  }

  lemma {:induction false} TimesPAdd(x: int, y: int)
    ensures TimesP(x + y) == TimesP(x) + TimesP(y)
  {
  }

  lemma {:induction false} SumValue(h: seq<u32>, b: seq<u8>, end: u32, s0: int, s1: int, s2: int, s3: int, s4: int)
    requires |h| == 5 && |b| == 16
    requires s0 == h[0] + Load32(b) as int && s1 == h[1] + Load32(b[4..]) as int && s4 == h[4] + end as int
    requires s2 == h[2] + Load32(b[8..]) as int && s3 == h[3] + Load32(b[12..]) as int
    ensures Five(s0, s1, s2, s3, s4) == HValue(h) + Four(b) + TWO_128 * end
  {
    hide Load32;
  }

  lemma {:induction false} ColumnsFit(s0: int, s1: int, s2: int, s3: int, s4: int, r: seq<u32>)
    requires Clamped(r) && 0 <= s0 <= 0x1_FFFF_FFFE && 0 <= s1 <= 0x1_FFFF_FFFE && 0 <= s2 <= 0x1_FFFF_FFFE
      && 0 <= s3 <= 0x1_FFFF_FFFE
    requires 0 <= s4 <= 5
    ensures var rr0, rr1, rr2, rr3, rr4 := r[0] / 4 * 5, r[1] / 4 + r[1], r[2] / 4 + r[2], r[3] / 4 + r[3], r[0] % 4;
      && 0 <= Times(s0, r[0]) + Times(s1, rr3) + Times(s2, rr2) + Times(s3, rr1)
          + Times(s4, rr0) <= 0x9800_0000_0000_0000
      && 0 <= Times(s0, r[1]) + Times(s1, r[0]) + Times(s2, rr3) + Times(s3, rr2)
          + Times(s4, rr1) <= 0x9800_0000_0000_0000
      && 0 <= Times(s0, r[2]) + Times(s1, r[1]) + Times(s2, r[0]) + Times(s3, rr3)
          + Times(s4, rr2) <= 0x9800_0000_0000_0000
      && 0 <= Times(s0, r[3]) + Times(s1, r[2]) + Times(s2, r[1]) + Times(s3, r[0])
          + Times(s4, rr3) <= 0x8000_0000_0000_0000 - 0x1_0000_0000
      && 0 <= Times(s4, rr4) <= 15
    ensures ProductFits(s0, s1, s2, s3, s4, r)
  {
    var rr0, rr1, rr2, rr3, rr4 := r[0] / 4 * 5, r[1] / 4 + r[1], r[2] / 4 + r[2], r[3] / 4 + r[3], r[0] % 4;
    ProductsFit(s0, s4, r[0], rr0);
    ProductsFit(s0, s4, r[1], rr1);
    ProductsFit(s0, s4, r[2], rr2);
    ProductsFit(s0, s4, r[3], rr3);
    ProductsFit(s1, s4, r[0], rr3);
    ProductsFit(s1, s4, r[1], rr3);
    ProductsFit(s1, s4, r[2], rr3);
    ProductsFit(s2, s4, r[0], rr2);
    ProductsFit(s2, s4, r[1], rr3);
    ProductsFit(s3, s4, r[0], rr1);
    ProductsFit(s3, s4, r[0], rr2);
    ProductsFit(s3, s4, r[0], rr3);
    TermFits(s4, 5, rr4, 3);
    assert Times(5, 3) == 15;
    hide Times;
  }

  // ----- specification

  /** The accumulator over whole 16-byte blocks, each with a one bit above it */
  function Acc(r: int, m: seq<u8>): (a: int)
    requires |m| % 16 == 0
    ensures 0 <= a < P
  {
    if m == [] then 0
    else Times(Acc(r, m[..|m| - 16]) + BytesValue(m[|m| - 16..]) + TWO_128, r) % P
  }

  /** The accumulator over a whole message: a last short block carries its one bit, as one more
      byte, right above its data. */
  function AccAll(r: int, m: seq<u8>): (a: int)
    ensures 0 <= a < P
  {
    var n := |m| - |m| % 16;
    if n == |m| then Acc(r, m)
    else Times(Acc(r, m[..n]) + BytesValue(m[n..] + [1]), r) % P
  }

  lemma {:induction false} AccStep(r: int, m: seq<u8>, n: nat)
    requires n % 16 == 0 && n + 16 <= |m|
    ensures Acc(r, m[..n + 16]) == Times(Acc(r, m[..n]) + BytesValue(m[n..n + 16]) + TWO_128, r) % P
  {
    var p := m[..n + 16];
    assert p[..|p| - 16] == m[..n] && p[|p| - 16..] == m[n..n + 16];
    hide BytesValue, Times;
  }

  lemma {:induction false} SameResidue(x: int, y: int, k: int)
    requires x == y - TimesP(k)
    ensures x % P == y % P
  {
    assert x / P == y / P - k;
  }

  /** Residues can be taken before or after multiplying. */
  lemma {:induction false} StepResidue(h: int, a: int, c: int, r: int, h': int, k: int)
    requires h % P == a % P && h' == Times(h + c, r) - TimesP(k)
    ensures h' % P == Times(a + c, r) % P
  {
    var j := h / P - a / P;
    assert h == a + TimesP(j);
    assert Times(h + c, r) == Times(a + c, r) + TimesP(Times(j, r)) by {
      assert (h + c) * r == (a + c) * r + TimesP(j) * r;
    }
    SameResidue(h', Times(a + c, r), k - Times(j, r));
  }

  // ----- the context

  class Ctx {
    var c: seq<u8>
    var cIdx: nat
    var r: seq<u32>
    var pad: seq<u32>
    var h: seq<u32>

    /** The blocks of m are in h, modulo P. */
    ghost predicate Absorbed(m: seq<u8>)
      reads this`h, this`r
    {
      |m| % 16 == 0 && Accumulator(h) && Clamped(r) && HValue(h) % P == Acc(RValue(r), m)
    }

    /** m has been taken in: its whole blocks are in h, the rest of it in c. */
    ghost predicate Holds(m: seq<u8>)
      reads this
    {
      && |c| == 16 && |pad| == 4 && cIdx <= 16 && cIdx <= |m|
      && c[..cIdx] == m[|m| - cIdx..]
      && Absorbed(m[..|m| - cIdx])
    }

    constructor (key: seq<u8>)
      requires |key| == 32
      ensures Holds([]) && cIdx == 0
      ensures r == KeyR(key) && pad == KeyPad(key)
    {
      hide KeyR, KeyPad, Clamped, RValue, Acc, HValue;
      h := [0, 0, 0, 0, 0];
      c := ZeroBytes(16);
      cIdx := 0;
      r := KeyR(key);
      pad := KeyPad(key);
      new;
      ghost var m: seq<u8> := [];
      assert m[..0] == [] && m[0..] == [] && c[..0] == [];
      NothingYet(RValue(r));
    }

    /** Absorbs a message of any length: bytes up to a block boundary, whole blocks, then the rest. */
    method Update(message: seq<u8>, ghost m: seq<u8>)
      requires Holds(m) && cIdx < 16
      modifies this`c, this`cIdx, this`h
      ensures Holds(m + message) && cIdx < 16
      ensures r == old(r) && pad == old(pad)
    {
      hide Holds;
      if |message| == 0 {
        assert m + message == m;
        return;
      }
      var gap := (16 - cIdx) % 16;
      var aligned := if gap <= |message| then gap else |message|;
      PutBytes(message[..aligned], m);
      if cIdx == 16 {
        FlushBlock(m + message[..aligned]);
      }
      var at := aligned + (|message| - aligned) / 16 * 16;
      if at > aligned {
        PutBlocks(message[aligned..at], m + message[..aligned]);
      }
      assert m + message[..aligned] + message[aligned..at] == m + message[..at];
      PutBytes(message[at..], m + message[..at]);
      assert m + message[..at] + message[at..] == m + message;
    }

    method FlushBlock(ghost m: seq<u8>)
      requires Holds(m) && cIdx == 16
      modifies this`cIdx, this`h
      ensures Holds(m) && cIdx == 0
    {
      hide Absorbed;
      PolyBlocks(c, m[..|m| - 16]);
      assert c[..16] == c && m[..|m| - 16] + m[|m| - 16..] == m;
      cIdx := 0;
      assert m[..|m| - 0] == m && c[..0] == m[|m|..];
    }

    method PutBlocks(data: seq<u8>, ghost m: seq<u8>)
      requires Holds(m) && cIdx == 0 && |data| % 16 == 0
      modifies this`h
      ensures Holds(m + data)
    {
      hide Absorbed;
      assert m[..|m| - 0] == m;
      PolyBlocks(data, m);
      assert (m + data)[..|m + data| - 0] == m + data && c[..0] == (m + data)[|m + data|..];
    }

    /** Buffers bytes that stay within the current block. */
    method PutBytes(data: seq<u8>, ghost m: seq<u8>)
      requires Holds(m) && cIdx + |data| <= 16
      modifies this`c, this`cIdx
      ensures Holds(m + data) && cIdx == old(cIdx) + |data|
    {
      hide Absorbed;
      ghost var n := |m| - cIdx;
      assert m + data[..0] == m;
      for i := 0 to |data|
        invariant |c| == 16 && cIdx == old(cIdx) + i
        invariant c[..cIdx] == m[n..] + data[..i]
        invariant Absorbed(m[..n])
      {
        ghost var was := c[..cIdx];
        c := c[cIdx := data[i]];
        cIdx := cIdx + 1;
        assert c[..cIdx] == was + [data[i]] && data[..i + 1] == data[..i] + [data[i]];
      }
      assert (m + data)[..n] == m[..n] && (m + data)[n..] == m[n..] + data;
      assert data[..|data|] == data;
    }

    /** The tag: the accumulator, fully reduced, plus the second half of the key, modulo 2^128 */
    method Final(ghost m: seq<u8>) returns (mac: seq<u8>)
      requires Holds(m) && cIdx < 16
      modifies this`c, this`h
      ensures |mac| == 16
      ensures BytesValue(mac) == (AccAll(RValue(r), m) + Value(pad)) % TWO_128
    {
      hide AccAll, Acc, BytesValue, Value, Times, HValue, RValue;
      ghost var n := |m| - cIdx;
      if cIdx != 0 {
        c := c[..cIdx] + [1] + ZeroBytes(15 - cIdx);
        ghost var was := HValue(h);
        var h', k := Block(h, r, c, 0);
        h := h';
        LastBlock(RValue(r), m, n, c, was, HValue(h), k);
      } else {
        WholeBlocks(RValue(r), m);
      }
      mac := AddPad(h, pad);
    }

    /** Absorbs whole blocks. */
    method PolyBlocks(data: seq<u8>, ghost m: seq<u8>)
      requires |data| % 16 == 0 && Absorbed(m)
      modifies this`h
      ensures Absorbed(m + data)
    {
      hide Acc, HValue, RValue, BytesValue, Times;
      assert m + data[..0] == m;
      for i := 0 to |data| / 16
        invariant Absorbed(m + data[..16 * i])
      {
        ghost var p := m + data[..16 * i];
        var b := data[16 * i..16 * i + 16];
        ghost var was := HValue(h);
        var h', k := Block(h, r, b, 1);
        h := h';
        NextBlock(RValue(r), p, b, was, HValue(h), k);
        assert p + b == m + data[..16 * (i + 1)];
      }
      assert data[..16 * (|data| / 16)] == data;
    }
  }

  /** The clamping of the key: 0x0fffffff on the first word, 0x0ffffffc on the others */
  function Clamp(w: seq<u32>): seq<u32>
    requires |w| == 4
  {
    [w[0] % 0x1000_0000, w[1] % 0x1000_0000 / 4 * 4, w[2] % 0x1000_0000 / 4 * 4, w[3] % 0x1000_0000 / 4 * 4]
  }

  /** The two halves of the key, as words: r, clamped, and the pad */
  function KeyR(key: seq<u8>): (r: seq<u32>)
    requires |key| == 32
    ensures |r| == 4 && Clamped(r)
  {
    ClampClears(LoadWords(key[..16]));
    Clamp(LoadWords(key[..16]))
  }

  function KeyPad(key: seq<u8>): (p: seq<u32>)
    requires |key| == 32
    ensures |p| == 4 && Value(p) == BytesValue(key[16..])
  {
    LoadWordsValue(key[16..]);
    LoadWords(key[16..])
  }

  lemma {:induction false} ClampClears(w: seq<u32>)
    requires |w| == 4
    ensures Clamped(Clamp(w))
  {
  }

  /** Zero bytes above do not change a little-endian number. */
  lemma {:induction false} ZerosAbove(b: seq<u8>, n: nat)
    ensures BytesValue(b + ZeroBytes(n)) == BytesValue(b)
    decreases |b|, n
  {
    if b == [] {
      if n > 0 {
        ZerosAbove(b, n - 1);
        assert (b + ZeroBytes(n))[1..] == b + ZeroBytes(n - 1);
      } else {
        assert b + ZeroBytes(0) == b;
      }
    } else {
      ZerosAbove(b[1..], n);
      assert (b + ZeroBytes(n))[1..] == b[1..] + ZeroBytes(n);
    }
  }

  lemma {:induction false} WholeBlocks(r: int, m: seq<u8>)
    requires |m| % 16 == 0
    ensures AccAll(r, m) == Acc(r, m) && m[..|m|] == m
  {
  }

  lemma {:induction false} LastBlock(r: int, m: seq<u8>, n: nat, c: seq<u8>, h: int, h': int, k: int)
    requires n == |m| - |m| % 16 && n < |m|
    requires c == m[n..] + [1] + ZeroBytes(15 - (|m| - n))
    requires h % P == Acc(r, m[..n]) && h' == Times(h + BytesValue(c) + TWO_128 * 0, r) - TimesP(k)
    ensures h' % P == AccAll(r, m)
  {
    hide Acc, BytesValue, Times, AccAll;
    ShortBlock(r, m, n, c);
    BlockResidue(h, Acc(r, m[..n]), BytesValue(c) + TWO_128 * 0, r, h', k);
  }

  /** The accumulator over a message with a short last block, whose bytes are padded to a block with zeros */
  lemma {:induction false} ShortBlock(r: int, m: seq<u8>, n: nat, c: seq<u8>)
    requires n == |m| - |m| % 16 && n < |m|
    requires c == m[n..] + [1] + ZeroBytes(15 - (|m| - n))
    ensures AccAll(r, m) == Times(Acc(r, m[..n]) + (BytesValue(c) + TWO_128 * 0), r) % P
  {
    hide Acc, BytesValue, Times;
    var last := m[n..] + [1];
    ZerosAbove(last, 15 - (|m| - n));
    assert BytesValue(c) == BytesValue(last);
  }

  /** One step on residues, for an accumulator that is one already */
  lemma {:induction false} BlockResidue(h: int, a: int, c: int, r: int, h': int, k: int)
    requires 0 <= a < P && h % P == a && h' == Times(h + c, r) - TimesP(k)
    ensures h' % P == Times(a + c, r) % P
  {
    hide Times, TimesP;
    SmallResidue(a);
    StepResidue(h, a, c, r, h', k);
  }

  lemma {:induction false} NothingYet(r: int)
    ensures HValue([0, 0, 0, 0, 0]) % P == Acc(r, [])
  {
  }

  /** Five times the number of times that P goes into h, found by carrying 5 up through h */
  method ExcessFive(h: seq<u32>) returns (c: u64)
    requires Accumulator(h)
    ensures c == 0 ==> HValue(h) % P == HValue(h)
    ensures c != 0 ==> c == 5 && HValue(h) % P == HValue(h) + 5 - 4 * TWO_128
  {
    c := 5;
    c := (c + h[0]) / 0x1_0000_0000;
    c := (c + h[1]) / 0x1_0000_0000;
    c := (c + h[2]) / 0x1_0000_0000;
    c := (c + h[3]) / 0x1_0000_0000;
    c := c + h[4];
    c := c / 4 * 5;
    FullyReduced(h, c);
  }

  /** The low four words of h + c + pad */
  method SumWords(h: seq<u32>, pad: seq<u32>, c: u64) returns (w: seq<u32>, ghost top: int)
    requires Accumulator(h) && |pad| == 4 && c <= 5
    ensures |w| == 4
    ensures Five(w[0], w[1], w[2], w[3], 0) + TWO_128 * top == HValue(h) + c + Five(pad[0], pad[1], pad[2], pad[3], 0)
  {
    var v0: u64 := c + h[0] + pad[0];
    var v1: u64 := v0 / 0x1_0000_0000 + h[1] + pad[1];
    var v2: u64 := v1 / 0x1_0000_0000 + h[2] + pad[2];
    var v3: u64 := v2 / 0x1_0000_0000 + h[3] + pad[3];
    w := [v0 % 0x1_0000_0000, v1 % 0x1_0000_0000, v2 % 0x1_0000_0000, v3 % 0x1_0000_0000];
    top := v3 / 0x1_0000_0000 + h[4] as int;
  }

  /** (h mod P + pad) mod 2^128 */
  method AddPad(h: seq<u32>, pad: seq<u32>) returns (mac: seq<u8>)
    requires Accumulator(h) && |pad| == 4
    ensures |mac| == 16
    ensures BytesValue(mac) == (HValue(h) % P + Value(pad)) % TWO_128
  {
    hide Value, BytesValue, StoreWords, Five, HValue;
    var c := ExcessFive(h);
    var w, top := SumWords(h, pad, c);
    ValueOfFour(w);
    ValueOfFour(pad);
    StoreWordsValue(w);
    mac := StoreWords(w);
    LowSum(HValue(h), c, Value(pad), Value(w), top);
  }

  lemma {:induction false} FullyReduced(h: seq<u32>, c: int)
    requires Accumulator(h)
    requires var c1 := (5 + h[0] as int) / 0x1_0000_0000;
             var c2 := (c1 + h[1] as int) / 0x1_0000_0000;
             var c3 := (c2 + h[2] as int) / 0x1_0000_0000;
             var c4 := (c3 + h[3] as int) / 0x1_0000_0000;
             c == (c4 + h[4] as int) / 4 * 5
    ensures c == 0 ==> HValue(h) % P == HValue(h)
    ensures c != 0 ==> c == 5 && HValue(h) % P == HValue(h) + 5 - 4 * TWO_128
  {
    var v := HValue(h);
    if c == 0 {
      assert v < P;
    } else {
      assert P <= v < 2 * P;
      assert v / P == 1;
    }
  }

  lemma {:induction false} LowSum(h: int, five: int, pad: int, w: int, top: int)
    requires five == 0 ==> h % P == h
    requires five != 0 ==> five == 5 && h % P == h + 5 - 4 * TWO_128
    requires 0 <= w < TWO_128 && w + TWO_128 * top == h + five + pad
    ensures w == (h % P + pad) % TWO_128
  {
    if five == 0 {
      assert (h + pad) / TWO_128 == top;
    } else {
      assert (h + 5 - 4 * TWO_128 + pad) / TWO_128 == top - 4;
    }
  }

  lemma {:induction false} ValueOfFour(w: seq<u32>)
    requires |w| == 4
    ensures Value(w) == Five(w[0], w[1], w[2], w[3], 0) && 0 <= Value(w) < TWO_128
  {
    ValueEmpty();
    hide Value;
    ValueCons(w[3], []);
    ValueCons(w[2], w[3..]);
    ValueCons(w[1], w[2..]);
    ValueCons(w[0], w[1..]);
    assert [w[3]] + [] == w[3..] && [w[2]] + w[3..] == w[2..] && [w[1]] + w[2..] == w[1..] && [w[0]] + w[1..] == w;
  }

  lemma {:induction false} NextBlock(r: int, p: seq<u8>, b: seq<u8>, h: int, h': int, k: int)
    requires |p| % 16 == 0 && |b| == 16
    requires h % P == Acc(r, p) && h' == Times(h + BytesValue(b) + TWO_128 * 1, r) - TimesP(k)
    ensures |p + b| % 16 == 0 && h' % P == Acc(r, p + b)
  {
    hide Acc, BytesValue, Times;
    assert (p + b)[..|p|] == p && (p + b)[..|p| + 16] == p + b && (p + b)[|p|..|p| + 16] == b;
    AccStep(r, p + b, |p|);
    BlockResidue(h, Acc(r, p), BytesValue(b) + TWO_128, r, h', k);
  }

  lemma {:induction false} SmallResidue(a: int)
    requires 0 <= a < P
    ensures a % P == a
  {
  }

  /** However the message is cut into updates, the tag is that of the concatenation. */
  method Authenticate(key: seq<u8>, parts: seq<seq<u8>>) returns (mac: seq<u8>)
    requires |key| == 32
    ensures |mac| == 16
    ensures BytesValue(mac) == (AccAll(RValue(KeyR(key)), Concat(parts)) + BytesValue(key[16..])) % TWO_128
  {
    hide AccAll, RValue, Value, BytesValue, KeyR, KeyPad, Ctx.Holds;
    var ctx := new Ctx(key);
    for i := 0 to |parts|
      invariant ctx.Holds(Concat(parts[..i])) && ctx.cIdx < 16
      invariant ctx.r == KeyR(key) && ctx.pad == KeyPad(key)
    {
      ConcatStep(parts, i);
      ctx.Update(parts[i], Concat(parts[..i]));
    }
    assert parts[..|parts|] == parts;
    mac := ctx.Final(Concat(parts));
  }
}
