/**
  Arithmetic modulo L, the order of the Ed25519 base point: schoolbook products on 32-bit
  limbs, conditional subtraction and Barrett reduction.
 */
module ScalarModL {
  import opened Limbs

  /** 2^252 + 27742317777372353535851937790883648493, the order of the base point
      (section 5.1 of RFC 8032) */
  const ELL: nat := 0x10000000_00000000_00000000_00000000_14def9de_a2f79cd6_5812631a_5cf5d3ed

  const TWO_256: int := 0x1_00000000_00000000_00000000_00000000_00000000_00000000_00000000_00000000

  const ELL_LIMBS: seq<u32> :=
    [0x5cf5d3ed, 0x5812631a, 0xa2f79cd6, 0x14def9de, 0x00000000, 0x00000000, 0x00000000, 0x10000000]

  /** floor(2^512 / L), the Barrett constant */
  const BARRETT: nat :=
    0xf_ffffffff_ffffffff_ffffffff_ffffffeb_2106215d_086329a7_ed9ce5a3_0a2c131b

  const BARRETT_LIMBS: seq<u32> :=
    [0x0a2c131b, 0xed9ce5a3, 0x086329a7, 0x2106215d, 0xffffffeb, 0xffffffff, 0xffffffff, 0xffffffff, 0xf]

  lemma {:induction false} Value4(s: seq<u32>)
    requires |s| == 4
    ensures Value(s) == s[0] + 0x1_00000000 * (s[1] as int + 0x1_00000000 * (s[2] as int + 0x1_00000000 * s[3] as int))
  {
    assert s == [s[0]] + ([s[1]] + ([s[2]] + ([s[3]] + [])));
    ValueEmpty();
    ValueCons(s[3], []);
    ValueCons(s[2], [s[3]] + []);
    ValueCons(s[1], [s[2]] + ([s[3]] + []));
    ValueCons(s[0], [s[1]] + ([s[2]] + ([s[3]] + [])));
  }

  lemma {:induction false} Shifted4(x: int)
    ensures Shifted(x, 4) == 0x1_00000000_00000000_00000000_00000000 * x
  {
    assert Shifted(x, 1) == 0x1_00000000 * Shifted(x, 0);
    assert Shifted(x, 2) == 0x1_00000000 * Shifted(x, 1);
    assert Shifted(x, 3) == 0x1_00000000 * Shifted(x, 2);
    assert Shifted(x, 4) == 0x1_00000000 * Shifted(x, 3);
  }

  lemma {:induction false} Shifted8(x: int)
    ensures Shifted(x, 8) == TWO_256 * x
  {
    Shifted4(x);
    Shifted4(Shifted(x, 4));
    ShiftedTwice(x, 4, 4);
  }

  lemma {:induction false} Shifted16(x: int)
    ensures Shifted(x, 16) == TWO_256 * (TWO_256 * x)
  {
    Shifted8(x);
    Shifted8(Shifted(x, 8));
    ShiftedTwice(x, 8, 8);
  }

  lemma {:induction false} LimbConstants()
    ensures |ELL_LIMBS| == 8 && Value(ELL_LIMBS) == ELL
    ensures |BARRETT_LIMBS| == 9 && Value(BARRETT_LIMBS) == BARRETT
  {
    Value4(ELL_LIMBS[..4]);
    Value4(ELL_LIMBS[4..]);
    Halves(ELL_LIMBS, 4);
    Shifted4(Value(ELL_LIMBS[4..]));
    var lo := BARRETT_LIMBS[..8];
    Value4(lo[..4]);
    Value4(lo[4..]);
    Halves(lo, 4);
    Shifted4(Value(lo[4..]));
    assert lo + [BARRETT_LIMBS[8]] == BARRETT_LIMBS;
    ValuePush(lo, BARRETT_LIMBS[8]);
    Shifted8(BARRETT_LIMBS[8]);
  }

  // ----- products

  /** p = a*b + p, where only the low |b| words of the incoming p count: every higher word
      is overwritten before it is read. */
  method Multiply(p: array<u32>, a: seq<u32>, b: seq<u32>)
    requires p.Length == |a| + |b|
    modifies p
    ensures Value(p[..]) == Value(a) * Value(b) + old(Value(p[..|b|]))
  {
    ghost var c := Value(p[..|b|]);
    MultiplyRows(p, a, b);
    assert Times(Value(a), Value(b)) == Value(a) * Value(b);
  }

  method MultiplyRows(p: array<u32>, a: seq<u32>, b: seq<u32>)
    requires p.Length == |a| + |b|
    modifies p
    ensures Value(p[..]) == Times(Value(a), Value(b)) + old(Value(p[..|b|]))
  {
    ValueEmpty();
    TimesZero();
    hide Value, Shifted, Times;
    var n := |b|;
    ghost var c := Value(p[..n]);
    assert a[..0] == [];
    for i := 0 to |a|
      invariant Value(p[..n + i]) == Times(Value(a[..i]), Value(b)) + c
    {
      ghost var was := p[..];
      var carry := MulAddRow(p, i, a[i], b);
      p[n + i] := carry;
      MultiplyRow(was, p[..], i, a, b, c);
    }
    assert p[..n + |a|] == p[..] && a[..|a|] == a;
  }

  /** Adding one row, moved up by i words, to the number built so far */
  lemma {:induction false} MultiplyRow(was: seq<u32>, now: seq<u32>, i: nat, a: seq<u32>, b: seq<u32>, c: int)
    requires i < |a| && |was| == |now| == |a| + |b|
    requires was[..i] == now[..i]
    requires Value(now[i..i + |b|]) + Shifted(now[|b| + i], |b|) == Value(was[i..i + |b|]) + Times(a[i], Value(b))
    requires Value(was[..|b| + i]) == Times(Value(a[..i]), Value(b)) + c
    ensures Value(now[..|b| + i + 1]) == Times(Value(a[..i + 1]), Value(b)) + c
  {
    hide Value, Shifted, Times;
    var n := |b|;
    ValueSplit(was, i, n);
    ValueSplit(now, i, n);
    ValueTop(now, n + i);
    ValueTop(a, i);
    ShiftedTwice(now[n + i], n, i);
    ShiftedAdd(Value(now[i..i + n]), Shifted(now[n + i], n), i);
    ShiftedAdd(Value(was[i..i + n]), Times(a[i], Value(b)), i);
    ShiftedTimes(a[i], Value(b), i);
    TimesAdd(Value(b), Value(a[..i]), Shifted(a[i], i));
  }

  lemma {:induction false} ValueSplit(s: seq<u32>, i: nat, n: nat)
    requires i + n <= |s|
    ensures Value(s[..n + i]) == Value(s[..i]) + Shifted(Value(s[i..i + n]), i)
  {
    assert s[..n + i] == s[..i] + s[i..i + n];
    ValueAppend(s[..i], s[i..i + n]);
  }

  // ----- comparing with L and subtracting it

  /** Comparing numbers by their top words first */
  lemma {:induction false} CompareTop(x: int, a: int, y: int, b: int, n: nat)
    requires 0 <= x < Shifted(1, n) && 0 <= y < Shifted(1, n)
    ensures x + Shifted(a, n) >= y + Shifted(b, n) <==> a > b || (a == b && x >= y)
  {
    ShiftedAdd(a, 1, n);
    ShiftedAdd(b, 1, n);
    ShiftedOrder(a + 1, b, n);
    ShiftedOrder(b + 1, a, n);
  }

  /** Adds x to the complement of L; the carry out tells whether x is at least L. */
  method IsAboveL(x: seq<u32>) returns (carry: u64)
    requires |x| == 8
    ensures carry == if Value(x) >= ELL then 1 else 0
  {
    LimbConstants();
    hide Value, Shifted;
    carry := 1;
    assert x[..0] == ELL_LIMBS[..0];
    for i := 0 to 8
      invariant carry == if Value(x[..i]) >= Value(ELL_LIMBS[..i]) then 1 else 0
    {
      ValueTop(x, i);
      ValueTop(ELL_LIMBS, i);
      CompareTop(Value(x[..i]), x[i], Value(ELL_LIMBS[..i]), ELL_LIMBS[i], i);
      carry := (carry + x[i] + (0xFFFF_FFFF - ELL_LIMBS[i])) / 0x1_0000_0000;
    }
    assert x[..8] == x && ELL_LIMBS[..8] == ELL_LIMBS;
  }

  /** One step of adding the complement of y to x */
  lemma {:induction false} SubStep(carry: int, n: nat, x: int, y: int, v0: int, v1: int)
    requires v0 + 0x1_0000_0000 * v1 == carry + x + (0xFFFF_FFFF - y)
    ensures Shifted(v0, n) + Shifted(v1, n + 1) + Shifted(1, n)
         == Shifted(carry, n) + Shifted(x, n) - Shifted(y, n) + Shifted(1, n + 1)
  {
    ShiftedWord(v1, n);
    ShiftedWord(1, n);
    ShiftedAdd(v0, 0x1_0000_0000 * v1, n);
    ShiftedAdd(carry + x + (0xFFFF_FFFF - y), 1, n);
    ShiftedAdd(carry, x, n);
    ShiftedAdd(carry + x + (0xFFFF_FFFF - y) + 1, y, n);
    ShiftedAdd(carry + x, 0x1_0000_0000, n);
  }

  /** r = x - L if x >= L, else r = x; r and x may be the same array. */
  method RemoveL(r: array<u32>, x: array<u32>)
    requires r.Length >= 8 && x.Length >= 8
    modifies r
    ensures Value(r[..8]) == var v := old(Value(x[..8])); if v >= ELL then v - ELL else v
    ensures forall m :: 8 <= m < r.Length ==> r[m] == old(r[m])
  {
    LimbConstants();
    ValueEmpty();
    hide Value, Shifted;
    ghost var x0 := x[..8];
    var above := IsAboveL(x[..8]);
    var carry: u64 := above;
    // 0xFFFFFFFF or 0: the complement of L is added whole or not at all
    var mask: u32 := (0x1_0000_0000 - carry) % 0x1_0000_0000;
    assert r[..0] == [] && x0[..0] == [] && ELL_LIMBS[..0] == [];
    for i := 0 to 8
      invariant carry <= 1
      invariant forall m :: i <= m < 8 ==> x[m] == x0[m]
      invariant forall m :: 8 <= m < r.Length ==> r[m] == old(r[m])
      invariant above == 1 ==>
        Value(r[..i]) + Shifted(carry, i) == Value(x0[..i]) + Shifted(1, i) - Value(ELL_LIMBS[..i])
      invariant above == 0 ==> carry == 0 && r[..i] == x0[..i]
    {
      ghost var lo, c := r[..i], carry;
      var v: u64 := carry + x[i] + (if mask == 0 then 0 else 0xFFFF_FFFF - ELL_LIMBS[i]);
      r[i] := v % 0x1_0000_0000;
      carry := v / 0x1_0000_0000;
      assert r[..i] == lo;
      if above == 1 {
        SubStep(c, i, x0[i], ELL_LIMBS[i], r[i], carry);
        ValueTop(r[..], i);
        ValueTop(x0, i);
        ValueTop(ELL_LIMBS, i);
        assert r[..][..i] == lo && r[..][..i + 1] == r[..i + 1];
      }
    }
    assert x0[..8] == x0 && ELL_LIMBS[..8] == ELL_LIMBS;
    if above == 1 {
      TopLimb(Value(r[..8]), carry, Value(x0) - ELL, 1, 8);
    }
  }

  // ----- Barrett reduction

  /** Barrett: the quotient estimated from the precomputed reciprocal is right or one too small. */
  lemma {:induction false} BarrettQuotient(x: int, q: int, rem: int)
    requires 0 <= x < TWO_256 * TWO_256
    requires BARRETT * x == rem + TWO_256 * (TWO_256 * q) && 0 <= rem < TWO_256 * TWO_256
    ensures 0 <= x - ELL * q < 2 * ELL
  {
    var e := TWO_256 * TWO_256 - BARRETT * ELL;
    assert 0 <= e < ELL;
    // 2^512 * (x - L*q) == L*rem + e*x
    assert TWO_256 * (TWO_256 * (x - ELL * q)) == ELL * rem + e * x;
  }

  lemma {:induction false} Zeros(s: seq<u32>)
    requires forall k :: 0 <= k < |s| ==> s[k] == 0
    ensures Value(s) == 0
  {
    if s != [] {
      Zeros(s[..|s| - 1]);
      ShiftedOrder(0, 0, |s| - 1);
    }
  }

  /** xr[..8] = (xr[16..24] * L) mod 2^256 */
  method MulLowByL(xr: array<u32>) returns (ghost t: int)
    requires xr.Length == 25
    requires forall m :: 0 <= m < 8 ==> xr[m] == 0
    modifies xr
    ensures forall m :: 8 <= m < 25 ==> xr[m] == old(xr[m])
    ensures Value(xr[..8]) + Shifted(t, 8) == Times(Value(xr[16..24]), ELL)
  {
    ghost var q := xr[16..24];
    t := 0;
    LimbConstants();
    Zeros(xr[..8]);
    ShiftedOrder(0, 0, 8);
    ValueEmpty();
    TimesZero();
    hide Value, Shifted, Times;
    assert q[..0] == [];
    for i := 0 to 8
      invariant forall m :: 8 <= m < 25 ==> xr[m] == old(xr[m])
      invariant Value(xr[..8]) + Shifted(t, 8) == Times(Value(q[..i]), ELL)
    {
      ghost var was := xr[..8];
      assert was[i..8] == xr[i..8];
      var k := xr[i + 16];
      assert k == q[i];
      var carry := MulAddRow(xr, i, k, ELL_LIMBS[..8 - i]);
      assert xr[..8][i..8] == xr[i..8];
      MulLowRow(was, xr[..8], i, q, carry, t);
      t := t + carry + Times(k, Value(ELL_LIMBS[8 - i..]));
    }
    assert q[..8] == q && xr[16..24] == q;
  }

  /** One row of the product that is kept modulo 2^256: what is dropped is a multiple of 2^256. */
  lemma {:induction false} MulLowRow(was: seq<u32>, now: seq<u32>, i: nat, q: seq<u32>, carry: u32, t: int)
    requires i < 8 && |was| == |now| == |q| == 8 && |ELL_LIMBS| == 8
    requires was[..i] == now[..i]
    requires Value(now[i..8]) + Shifted(carry, 8 - i) == Value(was[i..8]) + Times(q[i], Value(ELL_LIMBS[..8 - i]))
    requires Value(was) + Shifted(t, 8) == Times(Value(q[..i]), ELL)
    ensures Value(now) + Shifted(t + carry + Times(q[i], Value(ELL_LIMBS[8 - i..])), 8) == Times(Value(q[..i + 1]), ELL)
  {
    LimbConstants();
    hide Value, Shifted, Times;
    var n, k := 8 - i, q[i];
    var lo, hi := Value(ELL_LIMBS[..n]), Value(ELL_LIMBS[n..]);
    Halves(was, i);
    Halves(now, i);
    assert was[i..] == was[i..8] && now[i..] == now[i..8];
    ValueTop(q, i);
    // k*L, split at word n and moved up by i words
    Halves(ELL_LIMBS, n);
    TimesAdd(k, lo, Shifted(hi, n));
    ShiftedTimes(k, hi, n);
    ShiftedTimes(k, ELL, i);
    ShiftedAdd(Times(k, lo), Shifted(Times(k, hi), n), i);
    ShiftedTwice(Times(k, hi), n, i);
    TimesAdd(ELL, Value(q[..i]), Shifted(k, i));
    // the row itself
    ShiftedAdd(Value(now[i..8]), Shifted(carry, n), i);
    ShiftedAdd(Value(was[i..8]), Times(k, lo), i);
    ShiftedTwice(carry, n, i);
    ShiftedAdd(t, carry, 8);
    ShiftedAdd(t + carry, Times(k, hi), 8);
  }

  /** xr[..8] = x[..8] - xr[..8], modulo 2^256 */
  method SubtractLow(xr: array<u32>, x: seq<u32>) returns (ghost carry: int)
    requires xr.Length >= 8 && |x| >= 8
    modifies xr
    ensures forall m :: 8 <= m < xr.Length ==> xr[m] == old(xr[m])
    ensures Value(xr[..8]) + Shifted(carry, 8) == Value(x[..8]) + Shifted(1, 8) - old(Value(xr[..8]))
  {
    ValueEmpty();
    hide Value, Shifted;
    var c: u64 := 1;
    ghost var y := xr[..8];
    assert xr[..0] == [] && x[..0] == [] && y[..0] == [];
    for i := 0 to 8
      invariant c <= 1
      invariant forall m :: 8 <= m < xr.Length ==> xr[m] == old(xr[m])
      invariant forall m :: i <= m < 8 ==> xr[m] == y[m]
      invariant Value(xr[..i]) + Shifted(c, i) == Value(x[..i]) + Shifted(1, i) - Value(y[..i])
    {
      ghost var lo, was := xr[..i], c;
      var v: u64 := c + x[i] + (0xFFFF_FFFF - xr[i]);
      xr[i] := v % 0x1_0000_0000;
      c := v / 0x1_0000_0000;
      SubStep(was, i, x[i], y[i], xr[i], c);
      ValueTop(xr[..], i);
      ValueTop(x, i);
      ValueTop(y, i);
      assert xr[..][..i] == lo && xr[..][..i + 1] == xr[..i + 1];
    }
    assert y[..8] == y;
    carry := c;
  }

  lemma {:induction false} ConditionalSubtract(x: int, q: int, d: int)
    requires d == x - ELL * q && 0 <= d < 2 * ELL
    ensures (if d >= ELL then d - ELL else d) == x % ELL
  {
    if d >= ELL {
      assert x / ELL == q + 1;
    } else {
      assert x / ELL == q;
    }
  }

  /** xr = x * BARRETT, so that its words from 16 up are the quotient estimate */
  method EstimateQuotient(x: seq<u32>) returns (xr: array<u32>)
    requires |x| == 16
    ensures fresh(xr) && xr.Length == 25
    ensures 0 <= Value(x) - ELL * Value(xr[16..]) < 2 * ELL
  {
    xr := new u32[25](_ => 0);
    Zeros(xr[..16]);
    Multiply(xr, BARRETT_LIMBS, x);
    LimbConstants();
    Halves(xr[..], 16);
    assert xr[..][16..] == xr[16..];
    Shifted16(Value(xr[16..]));
    Shifted16(1);
    hide Value, Shifted;
    assert Value(BARRETT_LIMBS) * Value(x) == BARRETT * Value(x);
    BarrettQuotient(Value(x), Value(xr[16..]), Value(xr[..][..16]));
  }

  /** Full reduction modulo L of a 512-bit number, as eight words */
  method ModL(x: seq<u32>) returns (reduced: seq<u32>)
    requires |x| == 16
    ensures |reduced| == 8 && Value(reduced) == Value(x) % ELL
  {
    var xr := EstimateQuotient(x);
    hide Value, Shifted;
    ghost var q := xr[16..];
    for i := 0 to 8
      invariant forall m :: 0 <= m < i ==> xr[m] == 0
      invariant xr[16..] == q
    {
      xr[i] := 0;
    }
    ghost var t := MulLowByL(xr);
    assert xr[16..24] == q[..8];
    ghost var y := Value(xr[..8]);
    ghost var carry := SubtractLow(xr, x);
    ReducedLow(x, q, y, t, Value(xr[..8]), carry);
    ConditionalSubtract(Value(x), Value(q), Value(xr[..8]));
    RemoveL(xr, xr);
    reduced := xr[..8];
  }

  /** The pieces of the reduction, all of them known modulo 2^256, determine the remainder. */
  lemma {:induction false} ReducedLow(x: seq<u32>, q: seq<u32>, y: int, t: int, out: int, carry: int)
    requires |x| == 16 && |q| == 9
    requires 0 <= Value(x) - ELL * Value(q) < 2 * ELL
    requires y + Shifted(t, 8) == Times(Value(q[..8]), ELL)
    requires out + Shifted(carry, 8) == Value(x[..8]) + Shifted(1, 8) - y
    requires 0 <= out < Shifted(1, 8)
    ensures out == Value(x) - ELL * Value(q)
  {
    Halves(x, 8);
    ValueTop(q, 8);
    assert q[..9] == q;
    assert Times(Value(q[..8]), ELL) == ELL * Value(q[..8]);
    Shifted8(1);
    Shifted8(carry);
    Shifted8(t);
    Shifted8(q[8]);
    Shifted8(Value(x[8..]));
    hide *;
    MultipleOfTwo256(out - (Value(x) - ELL * Value(q)), 1 - carry + t - Value(x[8..]) + ELL * q[8]);
  }

  lemma {:induction false} MultipleOfTwo256(d: int, k: int)
    requires d == TWO_256 * k && -TWO_256 < d < TWO_256
    ensures d == 0
  {
  }

  /** r = expanded mod L, for a 64-byte number */
  method EddsaReduce(expanded: seq<u8>) returns (r: seq<u8>)
    requires |expanded| == 64
    ensures |r| == 32 && BytesValue(r) == BytesValue(expanded) % ELL
  {
    LoadWordsValue(expanded);
    var w := ModL(LoadWords(expanded));
    StoreWordsValue(w);
    r := StoreWords(w);
  }

  /** r = (a*b + c) mod L, the last step of an Ed25519 signature (section 5.1.6 of RFC 8032) */
  method EddsaMulAdd(a: seq<u8>, b: seq<u8>, c: seq<u8>) returns (r: seq<u8>)
    requires |a| == |b| == |c| == 32
    ensures |r| == 32 && BytesValue(r) == (BytesValue(a) * BytesValue(b) + BytesValue(c)) % ELL
  {
    LoadWordsValue(a);
    LoadWordsValue(b);
    LoadWordsValue(c);
    var addend, wa, wb := LoadWords(c), LoadWords(a), LoadWords(b);
    hide Value, BytesValue, LoadWords;
    var p := new u32[16](i requires 0 <= i => if i < 8 then addend[i] else 0);
    assert p[..8] == addend;
    Multiply(p, wa, wb);
    var w := ModL(p[..]);
    StoreWordsValue(w);
    r := StoreWords(w);
  }
}
