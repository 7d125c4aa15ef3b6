/**
  Arithmetic modulo 2^255 - 19 on ten signed limbs of alternately 26 and 25 bits: carry
  propagation, multiplication, and the conversions from and to 32 little-endian bytes.
 */
module Field25519 {
  import opened Limbs
  import opened WordBits

  type i32 = x: int | -0x8000_0000 <= x < 0x8000_0000
  type i64 = x: int | -0x8000_0000_0000_0000 <= x < 0x8000_0000_0000_0000

  /** 2^255 - 19 */
  const P: int := 0x7fffffff_ffffffff_ffffffff_ffffffff_ffffffff_ffffffff_ffffffff_ffffffed

  /** P * x, with the constant spelled out so that it stays linear */
  function TimesP(x: int): int {
    0x7fffffff_ffffffff_ffffffff_ffffffff_ffffffff_ffffffff_ffffffff_ffffffed * x
  }

  /** x times the weight of limb i, 2^ceil(25.5 i) */
  function AtLimb(i: nat, x: int): int
    requires i < 10
  {
    match i
    case 0 => x
    case 1 => 0x4000000 * x
    case 2 => 0x8000000000000 * x
    case 3 => 0x20000000000000000000 * x
    case 4 => 0x40000000000000000000000000 * x
    case 5 => 0x100000000000000000000000000000000 * x
    case 6 => 0x200000000000000000000000000000000000000 * x
    case 7 => 0x800000000000000000000000000000000000000000000 * x
    case 8 => 0x1000000000000000000000000000000000000000000000000000 * x
    case 9 => 0x4000000000000000000000000000000000000000000000000000000000 * x
  }

  type limbs = h: seq<int> | |h| == 10 witness [0, 0, 0, 0, 0, 0, 0, 0, 0, 0]

  /** The number that ten limbs denote */
  function FeValue(h: limbs): int {
    AtLimb(0, h[0]) + AtLimb(1, h[1]) + AtLimb(2, h[2]) + AtLimb(3, h[3]) + AtLimb(4, h[4])
    + AtLimb(5, h[5]) + AtLimb(6, h[6]) + AtLimb(7, h[7]) + AtLimb(8, h[8]) + AtLimb(9, h[9])
  }

  /** The same for ten numbers that are not in a sequence */
  function FeSum(x0: int, x1: int, x2: int, x3: int, x4: int, x5: int, x6: int, x7: int, x8: int, x9: int): int {
    AtLimb(0, x0) + AtLimb(1, x1) + AtLimb(2, x2) + AtLimb(3, x3) + AtLimb(4, x4)
    + AtLimb(5, x5) + AtLimb(6, x6) + AtLimb(7, x7) + AtLimb(8, x8) + AtLimb(9, x9)
  }

  lemma {:induction false} FeSumValue(h: limbs)
    ensures FeValue(h) == FeSum(h[0], h[1], h[2], h[3], h[4], h[5], h[6], h[7], h[8], h[9])
  {
    hide AtLimb;
  }

  /** Every even limb is within +-even, every odd limb within +-odd. */
  predicate Within(h: limbs, even: int, odd: int) {
    && -even <= h[0] <= even && -odd <= h[1] <= odd && -even <= h[2] <= even && -odd <= h[3] <= odd
    && -even <= h[4] <= even && -odd <= h[5] <= odd && -even <= h[6] <= even && -odd <= h[7] <= odd
    && -even <= h[8] <= even && -odd <= h[9] <= odd
  }

  /** What carry propagation leaves: below 1.1 * 2^25 and 1.1 * 2^24 */
  predicate Reduced(h: limbs) {
    Within(h, 36909875, 18454937)
  }

  /** What multiplication accepts: below 1.65 * 2^26 and 1.65 * 2^25 */
  predicate Multipliable(h: limbs) {
    Within(h, 110729625, 55364812)
  }

  // ----- carry propagation

  /** Moves the part of t above 26 bits, rounded to nearest, to the next limb */
  method Carry26(t: i64, next: i64) returns (t': i64, next': i64, ghost c: int)
    requires -0x8000_0000_0000_0000 <= t < 0x8000_0000_0000_0000 - 0x200_0000
    requires -0x4000_0000_0000_0000 - 0x80_0000_0000 <= next <= 0x4000_0000_0000_0000 + 0x80_0000_0000
    ensures t == t' + 0x400_0000 * c && next' == next + c
    ensures -0x200_0000 <= t' < 0x200_0000
  {
    var r: i64 := t + 0x200_0000;
    var q: i64 := r / 0x400_0000;
    var m: i64 := q * 0x400_0000;
    t', next', c := t - m, next + q, q;
  }

  /** Moves the part of t above 25 bits, rounded to nearest, to the next limb */
  method Carry25(t: i64, next: i64) returns (t': i64, next': i64, ghost c: int)
    requires -0x8000_0000_0000_0000 <= t < 0x8000_0000_0000_0000 - 0x100_0000
    requires -0x4000_0000_0000_0000 - 0x80_0000_0000 <= next <= 0x4000_0000_0000_0000 + 0x80_0000_0000
    ensures t == t' + 0x200_0000 * c && next' == next + c
    ensures -0x100_0000 <= t' < 0x100_0000
  {
    var r: i64 := t + 0x100_0000;
    var q: i64 := r / 0x200_0000;
    var m: i64 := q * 0x200_0000;
    t', next', c := t - m, next + q, q;
  }

  /** The last carry leaves limb 9 and comes back to limb 0 times 19, since 2^255 = 19 mod P. */
  method CarryTop(t9: i64, t0: i64) returns (t9': i64, t0': i64, ghost c: int)
    requires -0x8000_0000_0000_0000 <= t9 < 0x8000_0000_0000_0000 - 0x100_0000
    requires -0x200_0000 <= t0 < 0x200_0000
    ensures t9 == t9' + 0x200_0000 * c && t0' == t0 + 19 * c
    ensures -0x100_0000 <= t9' < 0x100_0000
  {
    var r: i64 := t9 + 0x100_0000;
    var q: i64 := r / 0x200_0000;
    var m: i64 := q * 0x200_0000;
    t9', t0', c := t9 - m, t0 + q * 19, q;
  }

  /** Carry propagation: the value changes by a multiple of P only, and the limbs get short.
      Limb 0 needs the room to be rounded; a bound of 2^63 alone would not do (CarryRoom). */
  method FeCarry(t: limbs) returns (h: limbs, ghost k: int)
    requires -0x8000_0000_0000_0000 <= t[0] < 0x8000_0000_0000_0000 - 0x200_0000
    requires forall i :: 1 <= i < 10 ==> -0x4000_0000_0000_0000 <= t[i] <= 0x4000_0000_0000_0000
    ensures FeValue(h) == FeValue(t) - TimesP(k)
    ensures Reduced(h)
  {
    var t0: i64, t1: i64, t2: i64, t3: i64, t4: i64 := t[0], t[1], t[2], t[3], t[4];
    var t5: i64, t6: i64, t7: i64, t8: i64, t9: i64 := t[5], t[6], t[7], t[8], t[9];
    ghost var c0, c4, c1, c5, c2, c6, c3, c7, d4, c8, d0;
    t0, t1, c0 := Carry26(t0, t1);
    t4, t5, c4 := Carry26(t4, t5);
    t1, t2, c1 := Carry25(t1, t2);
    t5, t6, c5 := Carry25(t5, t6);
    t2, t3, c2 := Carry26(t2, t3);
    t6, t7, c6 := Carry26(t6, t7);
    t3, t4, c3 := Carry25(t3, t4);
    t7, t8, c7 := Carry25(t7, t8);
    t4, t5, d4 := Carry26(t4, t5);
    t8, t9, c8 := Carry26(t8, t9);
    t9, t0, k := CarryTop(t9, t0);
    t0, t1, d0 := Carry26(t0, t1);
    h := [t0, t1, t2, t3, t4, t5, t6, t7, t8, t9];
  }

  // ----- how much room carry propagation needs

  predicate IsI32(x: int) {
    -0x8000_0000 <= x < 0x8000_0000
  }

  predicate IsI64(x: int) {
    -0x8000_0000_0000_0000 <= x < 0x8000_0000_0000_0000
  }

  /** The carry out of an even and of an odd limb, and what stays behind */
  function Carry26Of(t: int): int {
    (t + 0x200_0000) / 0x400_0000
  }

  function Carry25Of(t: int): int {
    (t + 0x100_0000) / 0x200_0000
  }

  function Rest26(t: int): int {
    t - 0x400_0000 * Carry26Of(t)
  }

  function Rest25(t: int): int {
    t - 0x200_0000 * Carry25Of(t)
  }

  /** No operation of one carry from t to the next limb leaves 64 bits. */
  predicate Room26(t: int, next: int) {
    IsI64(t + 0x200_0000) && IsI64(0x400_0000 * Carry26Of(t)) && IsI64(Rest26(t)) && IsI64(next + Carry26Of(t))
  }

  predicate Room25(t: int, next: int) {
    IsI64(t + 0x100_0000) && IsI64(0x200_0000 * Carry25Of(t)) && IsI64(Rest25(t)) && IsI64(next + Carry25Of(t))
  }

  /** No operation of the whole chain leaves 64 bits. */
  predicate CarryFits(t: limbs) {
    var a1, a5 := t[1] + Carry26Of(t[0]), t[5] + Carry26Of(t[4]);
    var a2, a6 := t[2] + Carry25Of(a1), t[6] + Carry25Of(a5);
    var a3, a7 := t[3] + Carry26Of(a2), t[7] + Carry26Of(a6);
    var a4, a8 := Rest26(t[4]) + Carry25Of(a3), t[8] + Carry25Of(a7);
    var a9 := t[9] + Carry26Of(a8);
    var a0 := Rest26(t[0]) + 19 * Carry25Of(a9);
    && Room26(t[0], t[1]) && Room26(t[4], t[5]) && Room25(a1, t[2]) && Room25(a5, t[6])
    && Room26(a2, t[3]) && Room26(a6, t[7]) && Room25(a3, Rest26(t[4])) && Room25(a7, t[8])
    && Room26(a4, Rest25(a5)) && Room26(a8, t[9])
    && Room25(a9, 0) && IsI64(19 * Carry25Of(a9)) && IsI64(a0) && Room26(a0, Rest25(a1))
  }

  /** The bounds that the source states for the chain */
  predicate StatedBounds(t: limbs) {
    && -0x8000_0000_0000_0000 < t[0] < 0x8000_0000_0000_0000
    && forall i :: 1 <= i < 10 ==> -0x4000_0000_0000_0000 < t[i] < 0x4000_0000_0000_0000
  }

  lemma {:induction false} Carries26(t: int, next: int)
    requires -0x8000_0000_0000_0000 <= t < 0x8000_0000_0000_0000 - 0x200_0000
    requires -0x4000_0000_0000_0000 - 0x80_0000_0000 <= next <= 0x4000_0000_0000_0000 + 0x80_0000_0000
    ensures Room26(t, next) && -0x200_0000 <= Rest26(t) < 0x200_0000
      && -0x20_0000_0000 <= Carry26Of(t) <= 0x20_0000_0000
  {
  }

  lemma {:induction false} Carries25(t: int, next: int)
    requires -0x8000_0000_0000_0000 <= t < 0x8000_0000_0000_0000 - 0x100_0000
    requires -0x4000_0000_0000_0000 - 0x80_0000_0000 <= next <= 0x4000_0000_0000_0000 + 0x80_0000_0000
    ensures Room25(t, next) && -0x100_0000 <= Rest25(t) < 0x100_0000
      && -0x40_0000_0000 <= Carry25Of(t) <= 0x40_0000_0000
  {
  }

  /** Within the bounds that the source states, the chain stays within 64 bits exactly if limb 0 leaves
      room for its rounding. */
  lemma {:induction false} CarryRoom(t: limbs)
    requires StatedBounds(t)
    ensures CarryFits(t) <==> t[0] < 0x8000_0000_0000_0000 - 0x200_0000
  {
    hide CarryFits;
    if t[0] < 0x8000_0000_0000_0000 - 0x200_0000 {
      RoomSuffices(t);
    } else if CarryFits(t) {
      StartsWithRoom(t);
    }
  }

  lemma {:induction false} StartsWithRoom(t: limbs)
    requires CarryFits(t)
    ensures t[0] < 0x8000_0000_0000_0000 - 0x200_0000
  {
    hide Room25, Carry26Of, Carry25Of, Rest26, Rest25;
  }

  lemma {:induction false} RoomSuffices(t: limbs)
    requires StatedBounds(t) && t[0] < 0x8000_0000_0000_0000 - 0x200_0000
    ensures CarryFits(t)
  {
    hide Carry26Of, Carry25Of, Rest26, Rest25, Room26, Room25;
    Carries26(t[0], t[1]);
    Carries26(t[4], t[5]);
    var a1, a5 := t[1] + Carry26Of(t[0]), t[5] + Carry26Of(t[4]);
    Carries25(a1, t[2]);
    Carries25(a5, t[6]);
    var a2, a6 := t[2] + Carry25Of(a1), t[6] + Carry25Of(a5);
    Carries26(a2, t[3]);
    Carries26(a6, t[7]);
    var a3, a7 := t[3] + Carry26Of(a2), t[7] + Carry26Of(a6);
    Carries25(a3, Rest26(t[4]));
    Carries25(a7, t[8]);
    var a4, a8 := Rest26(t[4]) + Carry25Of(a3), t[8] + Carry25Of(a7);
    Carries26(a4, Rest25(a5));
    Carries26(a8, t[9]);
    var a9 := t[9] + Carry26Of(a8);
    Carries25(a9, 0);
    Carries26(Rest26(t[0]) + 19 * Carry25Of(a9), Rest25(a1));
  }

  /** An input within the stated bounds for which the first addition overflows */
  lemma {:induction false} StatedBoundsTooWide()
    ensures var t := [0x7fff_ffff_ffff_ffff, 0, 0, 0, 0, 0, 0, 0, 0, 0];
            StatedBounds(t) && !IsI64(t[0] + 0x200_0000) && !CarryFits(t)
  {
    CarryRoom([0x7fff_ffff_ffff_ffff, 0, 0, 0, 0, 0, 0, 0, 0, 0]);
  }

  // ----- multiplication

  /** Row i of the product: the limbs of g times limb i, where a product of two odd limbs falls
      one bit high and a product past limb 9 comes back times 19. */
  function Row(i: nat, g: limbs): limbs
    requires i < 10
  {
    match i
    case 0 => [g[0], g[1], g[2], g[3], g[4], g[5], g[6], g[7], g[8], g[9]]
    case 1 => [38 * g[9], g[0], 2 * g[1], g[2], 2 * g[3], g[4], 2 * g[5], g[6], 2 * g[7], g[8]]
    case 2 => [19 * g[8], 19 * g[9], g[0], g[1], g[2], g[3], g[4], g[5], g[6], g[7]]
    case 3 => [38 * g[7], 19 * g[8], 38 * g[9], g[0], 2 * g[1], g[2], 2 * g[3], g[4], 2 * g[5], g[6]]
    case 4 => [19 * g[6], 19 * g[7], 19 * g[8], 19 * g[9], g[0], g[1], g[2], g[3], g[4], g[5]]
    case 5 => [38 * g[5], 19 * g[6], 38 * g[7], 19 * g[8], 38 * g[9], g[0], 2 * g[1], g[2], 2 * g[3], g[4]]
    case 6 => [19 * g[4], 19 * g[5], 19 * g[6], 19 * g[7], 19 * g[8], 19 * g[9], g[0], g[1], g[2], g[3]]
    case 7 => [38 * g[3], 19 * g[4], 38 * g[5], 19 * g[6], 38 * g[7], 19 * g[8], 38 * g[9], g[0], 2 * g[1], g[2]]
    case 8 => [19 * g[2], 19 * g[3], 19 * g[4], 19 * g[5], 19 * g[6], 19 * g[7], 19 * g[8], 19 * g[9], g[0], g[1]]
    case 9 => [38 * g[1], 19 * g[2], 38 * g[3], 19 * g[4], 38 * g[5], 19 * g[6], 38 * g[7], 19 * g[8], 38 * g[9], g[0]]
  }

  /** The part of row i that went past limb 9, brought back without the 19 */
  function Wrapped(i: nat, g: limbs): limbs
    requires i < 10
  {
    match i
    case 0 => [0, 0, 0, 0, 0, 0, 0, 0, 0, 0]
    case 1 => [2 * g[9], 0, 0, 0, 0, 0, 0, 0, 0, 0]
    case 2 => [g[8], g[9], 0, 0, 0, 0, 0, 0, 0, 0]
    case 3 => [2 * g[7], g[8], 2 * g[9], 0, 0, 0, 0, 0, 0, 0]
    case 4 => [g[6], g[7], g[8], g[9], 0, 0, 0, 0, 0, 0]
    case 5 => [2 * g[5], g[6], 2 * g[7], g[8], 2 * g[9], 0, 0, 0, 0, 0]
    case 6 => [g[4], g[5], g[6], g[7], g[8], g[9], 0, 0, 0, 0]
    case 7 => [2 * g[3], g[4], 2 * g[5], g[6], 2 * g[7], g[8], 2 * g[9], 0, 0, 0]
    case 8 => [g[2], g[3], g[4], g[5], g[6], g[7], g[8], g[9], 0, 0]
    case 9 => [2 * g[1], g[2], 2 * g[3], g[4], 2 * g[5], g[6], 2 * g[7], g[8], 2 * g[9], 0]
  }

  ghost predicate RowIsExact(i: nat, g: limbs)
    requires i < 10
  {
    FeValue(Row(i, g)) + TimesP(FeValue(Wrapped(i, g))) == AtLimb(i, FeValue(g))
  }

  lemma {:induction false} Row0(g: limbs)
    ensures RowIsExact(0, g)
  {
    hide FeSum, AtLimb, TimesP;
    FeSumValue(g);
    FeSumValue(Row(0, g));
    FeSumValue(Wrapped(0, g));
    RowSum0(g[0], g[1], g[2], g[3], g[4], g[5], g[6], g[7], g[8], g[9]);
  }

  lemma {:induction false} RowSum0(
      g0: int, g1: int, g2: int, g3: int, g4: int, g5: int, g6: int, g7: int, g8: int, g9: int)
    ensures FeSum(g0, g1, g2, g3, g4, g5, g6, g7, g8, g9)
            + TimesP(FeSum(0, 0, 0, 0, 0, 0, 0, 0, 0, 0))
         == AtLimb(0, FeSum(g0, g1, g2, g3, g4, g5, g6, g7, g8, g9))
  {
  }

  lemma {:induction false} Row1(g: limbs)
    ensures RowIsExact(1, g)
  {
    hide FeSum, AtLimb, TimesP;
    FeSumValue(g);
    FeSumValue(Row(1, g));
    FeSumValue(Wrapped(1, g));
    RowSum1(g[0], g[1], g[2], g[3], g[4], g[5], g[6], g[7], g[8], g[9]);
  }

  lemma {:induction false} RowSum1(
      g0: int, g1: int, g2: int, g3: int, g4: int, g5: int, g6: int, g7: int, g8: int, g9: int)
    ensures FeSum(38 * g9, g0, 2 * g1, g2, 2 * g3, g4, 2 * g5, g6, 2 * g7, g8)
            + TimesP(FeSum(2 * g9, 0, 0, 0, 0, 0, 0, 0, 0, 0))
         == AtLimb(1, FeSum(g0, g1, g2, g3, g4, g5, g6, g7, g8, g9))
  {
  }

  lemma {:induction false} Row2(g: limbs)
    ensures RowIsExact(2, g)
  {
    hide FeSum, AtLimb, TimesP;
    FeSumValue(g);
    FeSumValue(Row(2, g));
    FeSumValue(Wrapped(2, g));
    RowSum2(g[0], g[1], g[2], g[3], g[4], g[5], g[6], g[7], g[8], g[9]);
  }

  lemma {:induction false} RowSum2(
      g0: int, g1: int, g2: int, g3: int, g4: int, g5: int, g6: int, g7: int, g8: int, g9: int)
    ensures FeSum(19 * g8, 19 * g9, g0, g1, g2, g3, g4, g5, g6, g7)
            + TimesP(FeSum(g8, g9, 0, 0, 0, 0, 0, 0, 0, 0))
         == AtLimb(2, FeSum(g0, g1, g2, g3, g4, g5, g6, g7, g8, g9))
  {
  }

  lemma {:induction false} Row3(g: limbs)
    ensures RowIsExact(3, g)
  {
    hide FeSum, AtLimb, TimesP;
    FeSumValue(g);
    FeSumValue(Row(3, g));
    FeSumValue(Wrapped(3, g));
    RowSum3(g[0], g[1], g[2], g[3], g[4], g[5], g[6], g[7], g[8], g[9]);
  }

  lemma {:induction false} RowSum3(
      g0: int, g1: int, g2: int, g3: int, g4: int, g5: int, g6: int, g7: int, g8: int, g9: int)
    ensures FeSum(38 * g7, 19 * g8, 38 * g9, g0, 2 * g1, g2, 2 * g3, g4, 2 * g5, g6)
            + TimesP(FeSum(2 * g7, g8, 2 * g9, 0, 0, 0, 0, 0, 0, 0))
         == AtLimb(3, FeSum(g0, g1, g2, g3, g4, g5, g6, g7, g8, g9))
  {
  }

  lemma {:induction false} Row4(g: limbs)
    ensures RowIsExact(4, g)
  {
    hide FeSum, AtLimb, TimesP;
    FeSumValue(g);
    FeSumValue(Row(4, g));
    FeSumValue(Wrapped(4, g));
    RowSum4(g[0], g[1], g[2], g[3], g[4], g[5], g[6], g[7], g[8], g[9]);
  }

  lemma {:induction false} RowSum4(
      g0: int, g1: int, g2: int, g3: int, g4: int, g5: int, g6: int, g7: int, g8: int, g9: int)
    ensures FeSum(19 * g6, 19 * g7, 19 * g8, 19 * g9, g0, g1, g2, g3, g4, g5)
            + TimesP(FeSum(g6, g7, g8, g9, 0, 0, 0, 0, 0, 0))
         == AtLimb(4, FeSum(g0, g1, g2, g3, g4, g5, g6, g7, g8, g9))
  {
  }

  lemma {:induction false} Row5(g: limbs)
    ensures RowIsExact(5, g)
  {
    hide FeSum, AtLimb, TimesP;
    FeSumValue(g);
    FeSumValue(Row(5, g));
    FeSumValue(Wrapped(5, g));
    RowSum5(g[0], g[1], g[2], g[3], g[4], g[5], g[6], g[7], g[8], g[9]);
  }

  lemma {:induction false} RowSum5(
      g0: int, g1: int, g2: int, g3: int, g4: int, g5: int, g6: int, g7: int, g8: int, g9: int)
    ensures FeSum(38 * g5, 19 * g6, 38 * g7, 19 * g8, 38 * g9, g0, 2 * g1, g2, 2 * g3, g4)
            + TimesP(FeSum(2 * g5, g6, 2 * g7, g8, 2 * g9, 0, 0, 0, 0, 0))
         == AtLimb(5, FeSum(g0, g1, g2, g3, g4, g5, g6, g7, g8, g9))
  {
  }

  lemma {:induction false} Row6(g: limbs)
    ensures RowIsExact(6, g)
  {
    hide FeSum, AtLimb, TimesP;
    FeSumValue(g);
    FeSumValue(Row(6, g));
    FeSumValue(Wrapped(6, g));
    RowSum6(g[0], g[1], g[2], g[3], g[4], g[5], g[6], g[7], g[8], g[9]);
  }

  lemma {:induction false} RowSum6(
      g0: int, g1: int, g2: int, g3: int, g4: int, g5: int, g6: int, g7: int, g8: int, g9: int)
    ensures FeSum(19 * g4, 19 * g5, 19 * g6, 19 * g7, 19 * g8, 19 * g9, g0, g1, g2, g3)
            + TimesP(FeSum(g4, g5, g6, g7, g8, g9, 0, 0, 0, 0))
         == AtLimb(6, FeSum(g0, g1, g2, g3, g4, g5, g6, g7, g8, g9))
  {
  }

  lemma {:induction false} Row7(g: limbs)
    ensures RowIsExact(7, g)
  {
    hide FeSum, AtLimb, TimesP;
    FeSumValue(g);
    FeSumValue(Row(7, g));
    FeSumValue(Wrapped(7, g));
    RowSum7(g[0], g[1], g[2], g[3], g[4], g[5], g[6], g[7], g[8], g[9]);
  }

  lemma {:induction false} RowSum7(
      g0: int, g1: int, g2: int, g3: int, g4: int, g5: int, g6: int, g7: int, g8: int, g9: int)
    ensures FeSum(38 * g3, 19 * g4, 38 * g5, 19 * g6, 38 * g7, 19 * g8, 38 * g9, g0, 2 * g1, g2)
            + TimesP(FeSum(2 * g3, g4, 2 * g5, g6, 2 * g7, g8, 2 * g9, 0, 0, 0))
         == AtLimb(7, FeSum(g0, g1, g2, g3, g4, g5, g6, g7, g8, g9))
  {
  }

  lemma {:induction false} Row8(g: limbs)
    ensures RowIsExact(8, g)
  {
    hide FeSum, AtLimb, TimesP;
    FeSumValue(g);
    FeSumValue(Row(8, g));
    FeSumValue(Wrapped(8, g));
    RowSum8(g[0], g[1], g[2], g[3], g[4], g[5], g[6], g[7], g[8], g[9]);
  }

  lemma {:induction false} RowSum8(
      g0: int, g1: int, g2: int, g3: int, g4: int, g5: int, g6: int, g7: int, g8: int, g9: int)
    ensures FeSum(19 * g2, 19 * g3, 19 * g4, 19 * g5, 19 * g6, 19 * g7, 19 * g8, 19 * g9, g0, g1)
            + TimesP(FeSum(g2, g3, g4, g5, g6, g7, g8, g9, 0, 0))
         == AtLimb(8, FeSum(g0, g1, g2, g3, g4, g5, g6, g7, g8, g9))
  {
  }

  lemma {:induction false} Row9(g: limbs)
    ensures RowIsExact(9, g)
  {
    hide FeSum, AtLimb, TimesP;
    FeSumValue(g);
    FeSumValue(Row(9, g));
    FeSumValue(Wrapped(9, g));
    RowSum9(g[0], g[1], g[2], g[3], g[4], g[5], g[6], g[7], g[8], g[9]);
  }

  lemma {:induction false} RowSum9(
      g0: int, g1: int, g2: int, g3: int, g4: int, g5: int, g6: int, g7: int, g8: int, g9: int)
    ensures FeSum(38 * g1, 19 * g2, 38 * g3, 19 * g4, 38 * g5, 19 * g6, 38 * g7, 19 * g8, 38 * g9, g0)
            + TimesP(FeSum(2 * g1, g2, 2 * g3, g4, 2 * g5, g6, 2 * g7, g8, 2 * g9, 0))
         == AtLimb(9, FeSum(g0, g1, g2, g3, g4, g5, g6, g7, g8, g9))
  {
  }

  /** Modulo P, row i is g times the weight of limb i. */
  lemma {:induction false} RowValue(i: nat, g: limbs)
    requires i < 10
    ensures FeValue(Row(i, g)) + TimesP(FeValue(Wrapped(i, g))) == AtLimb(i, FeValue(g))
  {
    hide FeValue, Row, Wrapped, AtLimb, TimesP;
    match i
    case 0 => Row0(g);
    case 1 => Row1(g);
    case 2 => Row2(g);
    case 3 => Row3(g);
    case 4 => Row4(g);
    case 5 => Row5(g);
    case 6 => Row6(g);
    case 7 => Row7(g);
    case 8 => Row8(g);
    case 9 => Row9(g);
  }

  // A product is the sum of its rows, each scaled by one limb of f.

  function Scaled(a: int, v: limbs): limbs {
    [Times(a, v[0]), Times(a, v[1]), Times(a, v[2]), Times(a, v[3]), Times(a, v[4]),
     Times(a, v[5]), Times(a, v[6]), Times(a, v[7]), Times(a, v[8]), Times(a, v[9])]
  }

  function Plus(u: limbs, v: limbs): limbs {
    [u[0] + v[0], u[1] + v[1], u[2] + v[2], u[3] + v[3], u[4] + v[4],
     u[5] + v[5], u[6] + v[6], u[7] + v[7], u[8] + v[8], u[9] + v[9]]
  }

  function Zero(): limbs {
    [0, 0, 0, 0, 0, 0, 0, 0, 0, 0]
  }

  /** The first n rows, each scaled by its limb of f, added up */
  function Rows(f: limbs, g: limbs, n: nat): limbs
    requires n <= 10
  {
    if n == 0 then Zero() else Plus(Rows(f, g, n - 1), Scaled(f[n - 1], Row(n - 1, g)))
  }

  lemma {:induction false} PlusValue(u: limbs, v: limbs)
    ensures FeValue(Plus(u, v)) == FeValue(u) + FeValue(v)
  {
  }

  lemma {:induction false} AtLimbTimes(i: nat, a: int, x: int)
    requires i < 10
    ensures AtLimb(i, Times(a, x)) == Times(a, AtLimb(i, x)) == Times(AtLimb(i, a), x)
  {
  }

  lemma {:induction false} ScaledValue(a: int, v: limbs)
    ensures FeValue(Scaled(a, v)) == Times(a, FeValue(v))
  {
    AtLimbTimes(0, a, v[0]);
    AtLimbTimes(1, a, v[1]);
    AtLimbTimes(2, a, v[2]);
    AtLimbTimes(3, a, v[3]);
    AtLimbTimes(4, a, v[4]);
    AtLimbTimes(5, a, v[5]);
    AtLimbTimes(6, a, v[6]);
    AtLimbTimes(7, a, v[7]);
    AtLimbTimes(8, a, v[8]);
    AtLimbTimes(9, a, v[9]);
    hide Times, AtLimb;
    var s1 := AtLimb(0, v[0]) + AtLimb(1, v[1]);
    var s2 := s1 + AtLimb(2, v[2]);
    var s3 := s2 + AtLimb(3, v[3]);
    var s4 := s3 + AtLimb(4, v[4]);
    var s5 := s4 + AtLimb(5, v[5]);
    var s6 := s5 + AtLimb(6, v[6]);
    var s7 := s6 + AtLimb(7, v[7]);
    var s8 := s7 + AtLimb(8, v[8]);
    TimesAdd(a, AtLimb(0, v[0]), AtLimb(1, v[1]));
    TimesAdd(a, s1, AtLimb(2, v[2]));
    TimesAdd(a, s2, AtLimb(3, v[3]));
    TimesAdd(a, s3, AtLimb(4, v[4]));
    TimesAdd(a, s4, AtLimb(5, v[5]));
    TimesAdd(a, s5, AtLimb(6, v[6]));
    TimesAdd(a, s6, AtLimb(7, v[7]));
    TimesAdd(a, s7, AtLimb(8, v[8]));
    TimesAdd(a, s8, AtLimb(9, v[9]));
  }

  /** The value of the limbs of f below n */
  function Partial(f: limbs, n: nat): int
    requires n <= 10
  {
    if n == 0 then 0 else Partial(f, n - 1) + AtLimb(n - 1, f[n - 1])
  }

  /** Modulo P, the rows add up to the product. */
  lemma {:induction false} RowsValue(f: limbs, g: limbs, n: nat) returns (k: int)
    requires n <= 10
    ensures FeValue(Rows(f, g, n)) + TimesP(k) == Times(Partial(f, n), FeValue(g))
  {
    hide FeValue, Times, AtLimb, TimesP, Row, Wrapped, Scaled, Plus, Zero;
    if n == 0 {
      TimesZero();
      ZeroValue();
      k := 0;
    } else {
      var k0 := RowsValue(f, g, n - 1);
      var i, a, w := n - 1, f[n - 1], FeValue(Wrapped(n - 1, g));
      RowValue(i, g);
      ScaledValue(a, Row(i, g));
      PlusValue(Rows(f, g, i), Scaled(a, Row(i, g)));
      AtLimbTimes(i, a, FeValue(g));
      TimesAdd(a, FeValue(Row(i, g)), TimesP(w));
      TimesAdd(FeValue(g), Partial(f, i), AtLimb(i, a));
      TimesPSum(k0, a, w);
      k := k0 + Times(a, w);
    }
  }

  lemma {:induction false} TimesPSum(k: int, a: int, w: int)
    ensures TimesP(k + Times(a, w)) == TimesP(k) + Times(a, TimesP(w))
  {
  }

  lemma {:induction false} ZeroValue()
    ensures FeValue(Zero()) == 0 && TimesP(0) == 0
  {
  }

  lemma {:induction false} PartialValue(f: limbs)
    ensures Partial(f, 10) == FeValue(f)
  {
    hide AtLimb;
    assert Partial(f, 1) == AtLimb(0, f[0]);
    assert Partial(f, 2) == Partial(f, 1) + AtLimb(1, f[1]);
    assert Partial(f, 3) == Partial(f, 2) + AtLimb(2, f[2]);
    assert Partial(f, 4) == Partial(f, 3) + AtLimb(3, f[3]);
    assert Partial(f, 5) == Partial(f, 4) + AtLimb(4, f[4]);
    assert Partial(f, 6) == Partial(f, 5) + AtLimb(5, f[5]);
    assert Partial(f, 7) == Partial(f, 6) + AtLimb(6, f[6]);
    assert Partial(f, 8) == Partial(f, 7) + AtLimb(7, f[7]);
    assert Partial(f, 9) == Partial(f, 8) + AtLimb(8, f[8]);
    assert Partial(f, 10) == Partial(f, 9) + AtLimb(9, f[9]);
  }

  // ----- the product as the source computes it, one column at a time

  /** The sum of the first n products, added from left to right */
  function PartialDot(x: limbs, y: limbs, n: nat): int
    requires n <= 10
  {
    if n == 0 then 0 else PartialDot(x, y, n - 1) + Times(x[n - 1], y[n - 1])
  }

  function Dot(x: limbs, y: limbs): int {
    Times(x[0], y[0]) + Times(x[1], y[1]) + Times(x[2], y[2]) + Times(x[3], y[3]) + Times(x[4], y[4])
    + Times(x[5], y[5]) + Times(x[6], y[6]) + Times(x[7], y[7]) + Times(x[8], y[8]) + Times(x[9], y[9])
  }

  /** Every factor fits 32 bits, every product and every partial sum 64 bits. */
  predicate ColumnFits(x: limbs, y: limbs) {
    forall i :: 0 <= i < 10 ==>
      IsI32(x[i]) && IsI32(y[i]) && IsI64(Times(x[i], y[i])) && IsI64(PartialDot(x, y, i + 1))
  }

  lemma {:induction false} TermBound(x: int, y: int)
    requires -110729625 <= x <= 110729625 && -2103862875 <= y <= 2103862875
    ensures -232959947200171875 <= Times(x, y) <= 232959947200171875
  {
    if x >= 0 {
      MulLe(y, 2103862875, x);
      MulLe(-2103862875, y, x);
    } else {
      MulLe(y, 2103862875, -x);
      MulLe(-2103862875, y, -x);
    }
  }

  lemma {:induction false} PartialBound(x: limbs, y: limbs, n: nat)
    requires n <= 10
    requires forall i :: 0 <= i < 10 ==> -110729625 <= x[i] <= 110729625 && -2103862875 <= y[i] <= 2103862875
    ensures -232959947200171875 * n <= PartialDot(x, y, n) <= 232959947200171875 * n
  {
    if n > 0 {
      PartialBound(x, y, n - 1);
      TermBound(x[n - 1], y[n - 1]);
    }
    hide Times;
  }

  /** Every partial sum of a column fits 64 bits, and the column is below 2^62. */
  lemma {:induction false} DotBound(x: limbs, y: limbs)
    requires forall i :: 0 <= i < 10 ==> -110729625 <= x[i] <= 110729625 && -2103862875 <= y[i] <= 2103862875
    ensures ColumnFits(x, y)
    ensures -0x4000_0000_0000_0000 <= Dot(x, y) <= 0x4000_0000_0000_0000
  {
    hide PartialDot, Dot;
    forall i | 0 <= i < 10
      ensures IsI32(x[i]) && IsI32(y[i]) && IsI64(Times(x[i], y[i])) && IsI64(PartialDot(x, y, i + 1))
    {
      TermBound(x[i], y[i]);
      PartialBound(x, y, i + 1);
    }
    PartialBound(x, y, 10);
    WholeDot(x, y);
  }

  lemma {:induction false} WholeDot(x: limbs, y: limbs)
    ensures PartialDot(x, y, 10) == Dot(x, y)
  {
    hide Times;
    assert PartialDot(x, y, 1) == PartialDot(x, y, 0) + Times(x[0], y[0]);
    assert PartialDot(x, y, 2) == PartialDot(x, y, 1) + Times(x[1], y[1]);
    assert PartialDot(x, y, 3) == PartialDot(x, y, 2) + Times(x[2], y[2]);
    assert PartialDot(x, y, 4) == PartialDot(x, y, 3) + Times(x[3], y[3]);
    assert PartialDot(x, y, 5) == PartialDot(x, y, 4) + Times(x[4], y[4]);
    assert PartialDot(x, y, 6) == PartialDot(x, y, 5) + Times(x[5], y[5]);
    assert PartialDot(x, y, 7) == PartialDot(x, y, 6) + Times(x[6], y[6]);
    assert PartialDot(x, y, 8) == PartialDot(x, y, 7) + Times(x[7], y[7]);
    assert PartialDot(x, y, 9) == PartialDot(x, y, 8) + Times(x[8], y[8]);
    assert PartialDot(x, y, 10) == PartialDot(x, y, 9) + Times(x[9], y[9]);
  }

  function Column(k: nat, g: limbs): limbs
    requires k < 10
  {
    [Row(0, g)[k], Row(1, g)[k], Row(2, g)[k], Row(3, g)[k], Row(4, g)[k],
     Row(5, g)[k], Row(6, g)[k], Row(7, g)[k], Row(8, g)[k], Row(9, g)[k]]
  }

  lemma {:induction false} RowsColumn(f: limbs, g: limbs, k: nat)
    requires k < 10
    ensures Rows(f, g, 10)[k] == Dot(f, Column(k, g))
  {
    hide Row, Times;
    RowsEntry(f, g, 1, k);
    RowsEntry(f, g, 2, k);
    RowsEntry(f, g, 3, k);
    RowsEntry(f, g, 4, k);
    RowsEntry(f, g, 5, k);
    RowsEntry(f, g, 6, k);
    RowsEntry(f, g, 7, k);
    RowsEntry(f, g, 8, k);
    RowsEntry(f, g, 9, k);
    RowsEntry(f, g, 10, k);
    assert Rows(f, g, 0)[k] == 0;
    hide Rows;
  }

  lemma {:induction false} RowsEntry(f: limbs, g: limbs, n: nat, k: nat)
    requires 1 <= n <= 10 && k < 10
    ensures Rows(f, g, n)[k] == Rows(f, g, n - 1)[k] + Times(f[n - 1], Row(n - 1, g)[k])
  {
    hide Row, Times;
  }

  /** Doubling the odd limbs on the left is the same as doubling them on the right. */
  lemma {:induction false} DotEven(f: limbs, y: limbs)
    ensures Dot(Doubled(f), y) == Dot(f, Doubled(y))
  {
    forall i | 0 <= i < 10 ensures Times(f[i] * 2, y[i]) == Times(f[i], y[i] * 2) {
    }
    hide Times;
  }

  /** h = f * g modulo P.  Every factor of the ten columns fits 32 bits, every product and every partial sum
      64 bits, and the sum or difference of two results can be multiplied again. */
  method FeMul(f: limbs, g: limbs) returns (h: limbs, ghost k: int)
    requires Multipliable(f) && Multipliable(g)
    ensures FeValue(h) == FeValue(f) * FeValue(g) - TimesP(k)
    ensures Reduced(h)
    ensures forall c :: 0 <= c < 10 ==> ColumnFits(LeftFactors(c, f), Factors(c, g))
  {
    hide ColumnFits;
    var t := Columns(f, g);
    ghost var k1 := RowsValue(f, g, 10);
    PartialValue(f);
    ghost var k2;
    h, k2 := FeCarry(t);
    k := k1 + k2;
    assert Times(FeValue(f), FeValue(g)) == FeValue(f) * FeValue(g);
    hide FeValue, Times;
  }

  /** The right-hand factors of column k as the source lists them; in the even columns the odd
      limbs of f come doubled. */
  function Factors(k: nat, g: limbs): limbs
    requires k < 10
  {
    match k
    case 0 => [g[0], 19 * g[9], 19 * g[8], 19 * g[7], 19 * g[6], 19 * g[5], 19 * g[4], 19 * g[3], 19 * g[2], 19 * g[1]]
    case 1 => [g[1], g[0], 19 * g[9], 19 * g[8], 19 * g[7], 19 * g[6], 19 * g[5], 19 * g[4], 19 * g[3], 19 * g[2]]
    case 2 => [g[2], g[1], g[0], 19 * g[9], 19 * g[8], 19 * g[7], 19 * g[6], 19 * g[5], 19 * g[4], 19 * g[3]]
    case 3 => [g[3], g[2], g[1], g[0], 19 * g[9], 19 * g[8], 19 * g[7], 19 * g[6], 19 * g[5], 19 * g[4]]
    case 4 => [g[4], g[3], g[2], g[1], g[0], 19 * g[9], 19 * g[8], 19 * g[7], 19 * g[6], 19 * g[5]]
    case 5 => [g[5], g[4], g[3], g[2], g[1], g[0], 19 * g[9], 19 * g[8], 19 * g[7], 19 * g[6]]
    case 6 => [g[6], g[5], g[4], g[3], g[2], g[1], g[0], 19 * g[9], 19 * g[8], 19 * g[7]]
    case 7 => [g[7], g[6], g[5], g[4], g[3], g[2], g[1], g[0], 19 * g[9], 19 * g[8]]
    case 8 => [g[8], g[7], g[6], g[5], g[4], g[3], g[2], g[1], g[0], 19 * g[9]]
    case 9 => [g[9], g[8], g[7], g[6], g[5], g[4], g[3], g[2], g[1], g[0]]
  }

  function Doubled(f: limbs): limbs {
    [f[0], f[1] * 2, f[2], f[3] * 2, f[4], f[5] * 2, f[6], f[7] * 2, f[8], f[9] * 2]
  }

  lemma {:induction false} FactorsMatch(k: nat, g: limbs)
    requires k < 10
    ensures Column(k, g) == if k % 2 == 0 then Doubled(Factors(k, g)) else Factors(k, g)
  {
  }

  lemma {:induction false} FactorsFit(k: nat, g: limbs, i: nat)
    requires k < 10 && i < 10 && Multipliable(g)
    ensures -2103862875 <= Factors(k, g)[i] <= 2103862875
  {
  }

  lemma {:induction false} DoubledFits(f: limbs)
    requires Multipliable(f)
    ensures Within(f, 110729625, 110729625) && Within(Doubled(f), 110729625, 110729625)
  {
  }

  /** The left-hand factors of column k */
  function LeftFactors(k: nat, f: limbs): limbs
    requires k < 10
  {
    if k % 2 == 0 then Doubled(f) else f
  }

  /** Ten products summed up from left to right; factors are 32-bit, products and sums 64-bit numbers. */
  method SumProducts(x: limbs, y: limbs) returns (t: i64)
    requires ColumnFits(x, y)
    ensures t == Dot(x, y)
  {
    hide Times, Dot;
    t := 0;
    for i := 0 to 10
      invariant t == PartialDot(x, y, i)
    {
      var a: i32, b: i32 := x[i], y[i];
      var product: i64 := Times(a, b);
      assert IsI64(PartialDot(x, y, i + 1));
      t := t + product;
    }
    WholeDot(x, y);
  }

  /** Column k of the product: no factor leaves 32 bits, no product and no partial sum 64 bits. */
  method ProductColumn(f: limbs, g: limbs, k: nat) returns (t: i64)
    requires k < 10 && Multipliable(f) && Multipliable(g)
    ensures t == Rows(f, g, 10)[k] && -0x4000_0000_0000_0000 <= t <= 0x4000_0000_0000_0000
    ensures ColumnFits(LeftFactors(k, f), Factors(k, g))
  {
    FactorsMatch(k, g);
    DoubledFits(f);
    hide Factors, Column, Times, Dot, Row, Rows, Multipliable, ColumnFits;
    forall i | 0 <= i < 10 ensures -2103862875 <= Factors(k, g)[i] <= 2103862875 {
      FactorsFit(k, g, i);
    }
    DotBound(LeftFactors(k, f), Factors(k, g));
    RowsColumn(f, g, k);
    DotEven(f, Factors(k, g));
    t := SumProducts(LeftFactors(k, f), Factors(k, g));
  }

  method Columns(f: limbs, g: limbs) returns (t: limbs)
    requires Multipliable(f) && Multipliable(g)
    ensures t == Rows(f, g, 10)
    ensures forall i :: 0 <= i < 10 ==> -0x4000_0000_0000_0000 <= t[i] <= 0x4000_0000_0000_0000
    ensures forall c :: 0 <= c < 10 ==> ColumnFits(LeftFactors(c, f), Factors(c, g))
  {
    hide ColumnFits, Factors, LeftFactors;
    var t0 := ProductColumn(f, g, 0);
    var t1 := ProductColumn(f, g, 1);
    var t2 := ProductColumn(f, g, 2);
    var t3 := ProductColumn(f, g, 3);
    var t4 := ProductColumn(f, g, 4);
    var t5 := ProductColumn(f, g, 5);
    var t6 := ProductColumn(f, g, 6);
    var t7 := ProductColumn(f, g, 7);
    var t8 := ProductColumn(f, g, 8);
    var t9 := ProductColumn(f, g, 9);
    hide Rows;
    t := [t0, t1, t2, t3, t4, t5, t6, t7, t8, t9];
  }

  // ----- sums

  /** h = f + g, limb by limb; the sum of two carried numbers can be multiplied. */
  method FeAdd(f: limbs, g: limbs) returns (h: limbs)
    requires Reduced(f) && Reduced(g)
    ensures FeValue(h) == FeValue(f) + FeValue(g) && Multipliable(h)
  {
    h := f;
    for i := 0 to 10
      invariant |h| == 10
      invariant forall j :: 0 <= j < i ==> h[j] == f[j] + g[j]
    {
      h := h[i := f[i] + g[i]];
    }
  }

  /** h = f - g, limb by limb; the difference of two carried numbers can be multiplied. */
  method FeSub(f: limbs, g: limbs) returns (h: limbs)
    requires Reduced(f) && Reduced(g)
    ensures FeValue(h) == FeValue(f) - FeValue(g) && Multipliable(h)
  {
    h := f;
    for i := 0 to 10
      invariant |h| == 10
      invariant forall j :: 0 <= j < i ==> h[j] == f[j] - g[j]
    {
      h := h[i := f[i] - g[i]];
    }
  }

  // ----- decoding

  function Load24(b: seq<u8>): (w: int)
    requires |b| >= 3
    ensures 0 <= w < 0x100_0000
  {
    b[0] as int + 0x100 * b[1] as int + 0x1_0000 * b[2] as int
  }

  lemma {:induction false} BytesValue3(b: seq<u8>)
    requires |b| >= 3
    ensures BytesValue(b) == Load24(b) + 0x100_0000 * BytesValue(b[3..])
  {
    assert b[1..][1..] == b[2..] && b[2..][1..] == b[3..];
    assert BytesValue(b[1..]) == b[1] + 0x100 * BytesValue(b[2..]);
    assert BytesValue(b[2..]) == b[2] + 0x100 * BytesValue(b[3..]);
  }

  /** A 32-byte number in the ten pieces that decoding reads */
  lemma {:induction false} TenPieces(s: seq<u8>)
    requires |s| == 32
    ensures BytesValue(s) ==
      Load32(s) + 0x1_0000_0000 * (Load24(s[4..]) + 0x100_0000 * (Load24(s[7..]) + 0x100_0000 * (Load24(s[10..])
      + 0x100_0000 * (Load24(s[13..]) + 0x100_0000 * (Load32(s[16..]) as int + 0x1_0000_0000 * (Load24(s[20..])
      + 0x100_0000 * (Load24(s[23..]) + 0x100_0000 * (Load24(s[26..]) + 0x100_0000 * Load24(s[29..])))))))))
  {
    hide Load24, Load32;
    BytesValue4(s);
    BytesValue3(s[4..]);
    BytesValue3(s[7..]);
    BytesValue3(s[10..]);
    BytesValue3(s[13..]);
    BytesValue4(s[16..]);
    BytesValue3(s[20..]);
    BytesValue3(s[23..]);
    BytesValue3(s[26..]);
    BytesValue3(s[29..]);
    assert s[4..][3..] == s[7..] && s[7..][3..] == s[10..] && s[10..][3..] == s[13..] && s[13..][3..] == s[16..];
    assert s[16..][4..] == s[20..] && s[20..][3..] == s[23..] && s[23..][3..] == s[26..] && s[26..][3..] == s[29..];
    assert s[29..][3..] == [];
    assert BytesValue([]) == 0;
    hide BytesValue;
  }

  /** The limbs read from 32 bytes, before carrying; nbMask top bits (1 or 2) are ignored. */
  function Pieces(s: seq<u8>, nbMask: nat): limbs
    requires |s| == 32 && 1 <= nbMask <= 2
  {
    var mask := if nbMask == 1 then 0x80_0000 else 0x40_0000;
    [Load32(s), Load24(s[4..]) * 0x40, Load24(s[7..]) * 0x20, Load24(s[10..]) * 8, Load24(s[13..]) * 4,
     Load32(s[16..]), Load24(s[20..]) * 0x80, Load24(s[23..]) * 0x20, Load24(s[26..]) * 0x10,
     Load24(s[29..]) % mask * 4]
  }

  const TWO_255: int := 0x80000000_00000000_00000000_00000000_00000000_00000000_00000000_00000000
  const TWO_254: int := 0x40000000_00000000_00000000_00000000_00000000_00000000_00000000_00000000

  lemma {:induction false} Assembled(p0: int, p1: int, p2: int, p3: int, p4: int, p5: int, p6: int, p7: int, p8: int,
      low: int, high: int)
    ensures FeValue([p0, p1 * 0x40, p2 * 0x20, p3 * 8, p4 * 4, p5, p6 * 0x80, p7 * 0x20, p8 * 0x10, low * 4])
            + 0x100_00000000_00000000_00000000_00000000_00000000_00000000_00000000 * high ==
      p0 + 0x1_0000_0000 * (p1 + 0x100_0000 * (p2 + 0x100_0000 * (p3 + 0x100_0000 * (p4 + 0x100_0000 * (p5
      + 0x1_0000_0000 * (p6 + 0x100_0000 * (p7 + 0x100_0000 * (p8 + 0x100_0000 * (low + high)))))))))
  {
  }

  lemma {:induction false} PiecesValue(s: seq<u8>, nbMask: nat)
    requires |s| == 32 && 1 <= nbMask <= 2
    ensures FeValue(Pieces(s, nbMask)) == BytesValue(s) % (if nbMask == 1 then TWO_255 else TWO_254)
    ensures 0 <= FeValue(Pieces(s, nbMask))
  {
    TenPieces(s);
    PiecesRange(s, nbMask);
    hide BytesValue, Load24, Load32, FeValue;
    var top, mask := Load24(s[29..]), if nbMask == 1 then 0x80_0000 else 0x40_0000;
    Assembled(Load32(s), Load24(s[4..]), Load24(s[7..]), Load24(s[10..]), Load24(s[13..]), Load32(s[16..]),
              Load24(s[20..]), Load24(s[23..]), Load24(s[26..]), top % mask, mask * (top / mask));
    LowBits(BytesValue(s), FeValue(Pieces(s, nbMask)), nbMask, top / mask);
  }

  lemma {:induction false} PiecesRange(s: seq<u8>, nbMask: nat)
    requires |s| == 32 && 1 <= nbMask <= 2
    ensures 0 <= FeValue(Pieces(s, nbMask)) < if nbMask == 1 then TWO_255 else TWO_254
  {
    hide Load24, Load32;
  }

  lemma {:induction false} LowBits(n: int, v: int, nbMask: nat, q: int)
    requires 1 <= nbMask <= 2
    requires var m := if nbMask == 1 then TWO_255 else TWO_254; 0 <= v < m && n == v + m * q
    ensures v == n % (if nbMask == 1 then TWO_255 else TWO_254)
  {
    if nbMask == 1 {
      assert n / TWO_255 == q;
    } else {
      assert n / TWO_254 == q;
    }
  }

  /** Decodes a field element: the number read, without its ignored top bits, modulo P. */
  method FeFromBytesMask(s: seq<u8>, nbMask: nat) returns (h: limbs, ghost k: int)
    requires |s| == 32 && 1 <= nbMask <= 2
    ensures FeValue(h) == BytesValue(s) % (if nbMask == 1 then TWO_255 else TWO_254) - TimesP(k)
    ensures Reduced(h)
  {
    PiecesValue(s, nbMask);
    var t := Pieces(s, nbMask);
    h, k := FeCarry(t);
  }

  // ----- encoding

  /** x * 2^(51n): the weight of the n-th pair of limbs */
  function Sh51(x: int, n: nat): int {
    if n == 0 then x else 0x8_0000_0000_0000 * Sh51(x, n - 1)
  }

  lemma {:induction false} Sh51Add(x: int, y: int, n: nat)
    ensures Sh51(x + y, n) == Sh51(x, n) + Sh51(y, n)
  {
    if n > 0 {
      Sh51Add(x, y, n - 1);
    }
  }

  lemma {:induction false} Sh51Next(x: int, n: nat)
    ensures Sh51(x, n + 1) == Sh51(0x8_0000_0000_0000 * x, n)
  {
    if n > 0 {
      Sh51Next(x, n - 1);
    }
  }

  lemma {:induction false} Sh51Sign(x: int, n: nat)
    ensures x >= 0 ==> Sh51(x, n) >= 0
  {
    if n > 0 {
      Sh51Sign(x, n - 1);
    }
  }

  /** The value of the first n pairs of limbs */
  function Pairs(t: limbs, n: nat): int
    requires n <= 5
  {
    if n == 0 then 0 else Pairs(t, n - 1) + Sh51(t[2 * n - 2] + 0x400_0000 * t[2 * n - 1], n - 1)
  }

  lemma {:induction false} PairsValue(t: limbs)
    ensures Pairs(t, 5) == FeValue(t)
  {
    assert Pairs(t, 1) == t[0] + 0x400_0000 * t[1];
    assert Pairs(t, 2) == Pairs(t, 1) + Sh51(t[2] + 0x400_0000 * t[3], 1);
    assert Pairs(t, 3) == Pairs(t, 2) + Sh51(t[4] + 0x400_0000 * t[5], 2);
    assert Pairs(t, 4) == Pairs(t, 3) + Sh51(t[6] + 0x400_0000 * t[7], 3);
    assert Pairs(t, 5) == Pairs(t, 4) + Sh51(t[8] + 0x400_0000 * t[9], 4);
    forall x ensures Sh51(x, 1) == 0x8_0000_0000_0000 * x && Sh51(x, 2) == 0x8_0000_0000_0000 * Sh51(x, 1)
              && Sh51(x, 3) == 0x8_0000_0000_0000 * Sh51(x, 2) && Sh51(x, 4) == 0x8_0000_0000_0000 * Sh51(x, 3) {
    }
    hide Sh51, Pairs;
  }

  lemma {:induction false} PairsLocal(t: limbs, t': limbs, n: nat)
    requires n <= 5 && forall i :: 0 <= i < 2 * n ==> t[i] == t'[i]
    ensures Pairs(t, n) == Pairs(t', n)
  {
    if n > 0 {
      PairsLocal(t, t', n - 1);
    }
  }

  /** One pass of the sign test: a remainder r at weight n, and a new quotient above it */
  lemma {:induction false} QuotientStep(q: int, pair: int, q': int, r: int, n: nat)
    requires q + pair == r + 0x8_0000_0000_0000 * q'
    ensures Sh51(q, n) + Sh51(pair, n) == Sh51(r, n) + Sh51(q', n + 1)
  {
    Sh51Add(q, pair, n);
    Sh51Next(q', n);
    Sh51Add(r, 0x8_0000_0000_0000 * q', n);
  }

  /** floor((start + value of t) / 2^255), pair by pair */
  method TopQuotient(t: limbs, start: int) returns (q: i32, ghost rem: int)
    requires Reduced(t) && -16 <= start <= 16
    ensures start + FeValue(t) == rem + TWO_255 * q
    ensures 0 <= rem < TWO_255
    ensures q == (start + FeValue(t)) / TWO_255
  {
    hide Sh51, Pairs, FeValue;
    q, rem := start, 0;
    PairsStart(t, start);
    for i := 0 to 5
      invariant -16 <= q <= 16
      invariant start + Pairs(t, i) == rem + Sh51(q, i)
      invariant 0 <= rem < Sh51(1, i)
    {
      PairsEnd(t, i);
      ghost var q0 := q;
      var a: i32 := q + t[2 * i];
      var b: i32 := a / 0x400_0000;
      var c: i32 := b + t[2 * i + 1];
      q := c / 0x200_0000;
      ghost var r := a % 0x400_0000 + 0x400_0000 * (c % 0x200_0000);
      QuotientStep(q0, t[2 * i] + 0x400_0000 * t[2 * i + 1], q, r, i);
      RemainderBound(rem, r, i);
      rem := rem + Sh51(r, i);
    }
    PairsValue(t);
    Sh51Five(q);
    Sh51Five(1);
    Quotient(start + FeValue(t), q, rem);
  }

  lemma {:induction false} Quotient(x: int, q: int, rem: int)
    requires x == rem + TWO_255 * q && 0 <= rem < TWO_255
    ensures q == x / TWO_255
  {
  }

  lemma {:induction false} PairsStart(t: limbs, q: int)
    ensures Pairs(t, 0) == 0 && Sh51(q, 0) == q && Sh51(1, 0) == 1
  {
  }

  lemma {:induction false} PairsEnd(t: limbs, i: nat)
    requires i < 5
    ensures Pairs(t, i + 1) == Pairs(t, i) + Sh51(t[2 * i] + 0x400_0000 * t[2 * i + 1], i)
  {
  }

  lemma {:induction false} RemainderBound(rem: int, r: int, n: nat)
    requires 0 <= rem < Sh51(1, n) && 0 <= r < 0x8_0000_0000_0000
    ensures 0 <= rem + Sh51(r, n) < Sh51(1, n + 1)
  {
    Sh51Sign(r, n);
    Sh51Sign(0x8_0000_0000_0000 - 1 - r, n);
    Sh51Add(r, 0x8_0000_0000_0000 - 1 - r, n);
    Sh51Add(0x8_0000_0000_0000 - 1, 1, n);
    Sh51Next(1, n);
  }

  lemma {:induction false} Sh51Five(x: int)
    ensures Sh51(x, 5) == TWO_255 * x
  {
    assert Sh51(x, 1) == 0x8_0000_0000_0000 * x;
    assert Sh51(x, 2) == 0x8_0000_0000_0000 * Sh51(x, 1);
    assert Sh51(x, 3) == 0x8_0000_0000_0000 * Sh51(x, 2);
    assert Sh51(x, 4) == 0x8_0000_0000_0000 * Sh51(x, 3);
    assert Sh51(x, 5) == 0x8_0000_0000_0000 * Sh51(x, 4);
  }

  /** In range after the second pass: 0 <= even limb < 2^26, 0 <= odd limb < 2^25 */
  predicate Canonical(t: limbs, n: nat)
    requires n <= 5
  {
    forall i :: 0 <= i < n ==> 0 <= t[2 * i] < 0x400_0000 && 0 <= t[2 * i + 1] < 0x200_0000
  }

  /** Adds start to the number and brings every limb into its tight positive range; what is
      carried out of limb 9 is dropped. */
  method Normalize(h: limbs, start: i32) returns (t: limbs, ghost excess: int)
    requires Reduced(h) && -19 <= start <= 0
    ensures Canonical(t, 5)
    ensures FeValue(t) + TWO_255 * excess == start + FeValue(h)
  {
    hide Sh51, Pairs, FeValue;
    t := h;
    var q: i32 := start;
    PairsStart(h, q);
    PairsStart(t, q);
    for i := 0 to 5
      invariant -19 <= q <= 16
      invariant |t| == 10 && forall j :: 2 * i <= j < 10 ==> t[j] == h[j]
      invariant Canonical(t, i)
      invariant Pairs(t, i) + Sh51(q, i) == start + Pairs(h, i)
    {
      ghost var was, q0 := t, q;
      var a: i32 := t[2 * i] + q;
      q := a / 0x400_0000;
      var a': i32 := a - q * 0x400_0000;
      t := t[2 * i := a'];
      var b: i32 := t[2 * i + 1] + q;
      q := b / 0x200_0000;
      var b': i32 := b - q * 0x200_0000;
      t := t[2 * i + 1 := b'];
      QuotientStep(q0, h[2 * i] + 0x400_0000 * h[2 * i + 1], q, a' + 0x400_0000 * b', i);
      PairsEnd(h, i);
      PairsEnd(t, i);
      PairsLocal(was, t, i);
    }
    PairsValue(t);
    PairsValue(h);
    Sh51Five(q);
    excess := q;
  }

  /** The high part of x, with the low part of y above it */
  function Piece(x: int, pj: int, y: int, pc: int, pk: int): int
    requires pj > 0 && pc > 0
  {
    x / pj + y % pc * pk
  }

  /** The words of a canonical number */
  function Packed(t: limbs): (w: seq<int>)
    ensures |w| == 8
  {
    [Piece(t[0], 1, t[1], 0x40, 0x400_0000), Piece(t[1], 0x40, t[2], 0x2000, 0x8_0000),
     Piece(t[2], 0x2000, t[3], 0x8_0000, 0x2000), Piece(t[3], 0x8_0000, t[4], 0x400_0000, 0x40),
     Piece(t[5], 1, t[6], 0x80, 0x200_0000), Piece(t[6], 0x80, t[7], 0x2000, 0x8_0000),
     Piece(t[7], 0x2000, t[8], 0x10_0000, 0x1000), Piece(t[8], 0x10_0000, t[9], 0x400_0000, 0x40)]
  }

  lemma {:induction false} Powers()
    ensures Pow2(0) == 1 && Pow2(6) == 0x40 && Pow2(7) == 0x80 && Pow2(12) == 0x1000 && Pow2(13) == 0x2000
    ensures Pow2(19) == 0x8_0000 && Pow2(20) == 0x10_0000 && Pow2(25) == 0x200_0000 && Pow2(26) == 0x400_0000
  {
    assert Weight(1, 6) == 0x40;
    WeightTwice(1, 6, 6);
    assert Weight(0x40, 6) == 0x1000;
    assert Weight(1, 13) == 2 * Weight(1, 12);
    WeightTwice(1, 13, 6);
    assert Weight(0x2000, 6) == 0x8_0000;
    assert Weight(1, 20) == 2 * Weight(1, 19);
    WeightTwice(1, 19, 6);
    assert Weight(0x8_0000, 6) == 0x200_0000;
    assert Weight(1, 26) == 2 * Weight(1, 25);
  }

  lemma {:induction false} CanonicalLimb(t: limbs, i: nat)
    requires Canonical(t, 5) && i < 5
    ensures 0 <= t[2 * i] < 0x400_0000 && 0 <= t[2 * i + 1] < 0x200_0000
  {
  }

  // The words of the encoding, one by one, as the source computes them

  method Word0(x: int, y: int) returns (w: u32)
    requires 0 <= x < 0x400_0000 && 0 <= y < 0x400_0000
    ensures w == Piece(x, 1, y, 0x40, 0x400_0000)
  {
    hide Num, Up, Down, Pow2, Weight;
    var u, v := ToWord(x), ToWord(y);
    Powers();
    NoShift(u);
    Up26(v);
    ShiftedJoin(u, 0, v, 26);
    w := Num(u | (v << 26));
  }

  method Word1(x: int, y: int) returns (w: u32)
    requires 0 <= x < 0x200_0000 && 0 <= y < 0x400_0000
    ensures w == Piece(x, 0x40, y, 0x2000, 0x8_0000)
  {
    hide Num, Up, Down, Pow2, Weight;
    var u, v := ToWord(x), ToWord(y);
    Powers();
    DownIsShift(u);
    Up19(v);
    ShiftedJoin(u, 6, v, 19);
    w := Num((u >> 6) | (v << 19));
  }

  method Word2(x: int, y: int) returns (w: u32)
    requires 0 <= x < 0x400_0000 && 0 <= y < 0x400_0000
    ensures w == Piece(x, 0x2000, y, 0x8_0000, 0x2000)
  {
    hide Num, Up, Down, Pow2, Weight;
    var u, v := ToWord(x), ToWord(y);
    Powers();
    DownIsShift(u);
    Up13(v);
    ShiftedJoin(u, 13, v, 13);
    w := Num((u >> 13) | (v << 13));
  }

  method Word3(x: int, y: int) returns (w: u32)
    requires 0 <= x < 0x200_0000 && 0 <= y < 0x400_0000
    ensures w == Piece(x, 0x8_0000, y, 0x400_0000, 0x40)
  {
    hide Num, Up, Down, Pow2, Weight;
    var u, v := ToWord(x), ToWord(y);
    Powers();
    DownIsShift(u);
    Up6(v);
    ShiftedJoin(u, 19, v, 6);
    w := Num((u >> 19) | (v << 6));
  }

  method Word4(x: int, y: int) returns (w: u32)
    requires 0 <= x < 0x200_0000 && 0 <= y < 0x400_0000
    ensures w == Piece(x, 1, y, 0x80, 0x200_0000)
  {
    hide Num, Up, Down, Pow2, Weight;
    var u, v := ToWord(x), ToWord(y);
    Powers();
    NoShift(u);
    Up25(v);
    ShiftedJoin(u, 0, v, 25);
    w := Num(u | (v << 25));
  }

  method Word5(x: int, y: int) returns (w: u32)
    requires 0 <= x < 0x400_0000 && 0 <= y < 0x400_0000
    ensures w == Piece(x, 0x80, y, 0x2000, 0x8_0000)
  {
    hide Num, Up, Down, Pow2, Weight;
    var u, v := ToWord(x), ToWord(y);
    Powers();
    DownIsShift(u);
    Up19(v);
    ShiftedJoin(u, 7, v, 19);
    w := Num((u >> 7) | (v << 19));
  }

  method Word6(x: int, y: int) returns (w: u32)
    requires 0 <= x < 0x200_0000 && 0 <= y < 0x400_0000
    ensures w == Piece(x, 0x2000, y, 0x10_0000, 0x1000)
  {
    hide Num, Up, Down, Pow2, Weight;
    var u, v := ToWord(x), ToWord(y);
    Powers();
    DownIsShift(u);
    Up12(v);
    ShiftedJoin(u, 13, v, 12);
    w := Num((u >> 13) | (v << 12));
  }

  method Word7(x: int, y: int) returns (w: u32)
    requires 0 <= x < 0x400_0000 && 0 <= y < 0x400_0000
    ensures w == Piece(x, 0x10_0000, y, 0x400_0000, 0x40)
  {
    hide Num, Up, Down, Pow2, Weight;
    var u, v := ToWord(x), ToWord(y);
    Powers();
    DownIsShift(u);
    Up6(v);
    ShiftedJoin(u, 20, v, 6);
    w := Num((u >> 20) | (v << 6));
  }

  /** The eight words of the encoding */
  method PackWords(t: limbs) returns (w: seq<u32>)
    requires Canonical(t, 5)
    ensures w == Packed(t)
  {
    hide Canonical, Piece;
    CanonicalLimb(t, 0);
    CanonicalLimb(t, 1);
    CanonicalLimb(t, 2);
    CanonicalLimb(t, 3);
    CanonicalLimb(t, 4);
    var w0 := Word0(t[0], t[1]);
    var w1 := Word1(t[1], t[2]);
    var w2 := Word2(t[2], t[3]);
    var w3 := Word3(t[3], t[4]);
    var w4 := Word4(t[5], t[6]);
    var w5 := Word5(t[6], t[7]);
    var w6 := Word6(t[7], t[8]);
    var w7 := Word7(t[8], t[9]);
    w := [w0, w1, w2, w3, w4, w5, w6, w7];
  }

  /** Eight words as one number, in Horner form */
  function Words8(w: seq<int>): int
    requires |w| == 8
  {
    w[0] + 0x1_0000_0000 * (w[1] + 0x1_0000_0000 * (w[2] + 0x1_0000_0000 * (w[3] + 0x1_0000_0000 *
    (w[4] + 0x1_0000_0000 * (w[5] + 0x1_0000_0000 * (w[6] + 0x1_0000_0000 * w[7]))))))
  }

  lemma {:induction false} PackedValue(t: limbs)
    requires Canonical(t, 5)
    ensures Words8(Packed(t)) == FeValue(t)
  {
    CanonicalLimb(t, 2);
    CanonicalLimb(t, 4);
    assert t[4] % 0x400_0000 == t[4] && t[9] % 0x400_0000 == t[9];
    assert t[1] == t[1] % 0x40 + 0x40 * (t[1] / 0x40);
    assert t[2] == t[2] % 0x2000 + 0x2000 * (t[2] / 0x2000);
    assert t[3] == t[3] % 0x8_0000 + 0x8_0000 * (t[3] / 0x8_0000);
    assert t[6] == t[6] % 0x80 + 0x80 * (t[6] / 0x80);
    assert t[7] == t[7] % 0x2000 + 0x2000 * (t[7] / 0x2000);
    assert t[8] == t[8] % 0x10_0000 + 0x10_0000 * (t[8] / 0x10_0000);
  }

  lemma {:induction false} Words8Value(w: seq<u32>)
    requires |w| == 8
    ensures Value(w) == Words8(w)
  {
    hide Value;
    ValueEmpty();
    ValueCons(w[7], []);
    ValueCons(w[6], w[7..]);
    ValueCons(w[5], w[6..]);
    ValueCons(w[4], w[5..]);
    ValueCons(w[3], w[4..]);
    ValueCons(w[2], w[3..]);
    ValueCons(w[1], w[2..]);
    ValueCons(w[0], w[1..]);
    assert [w[7]] + [] == w[7..] && [w[6]] + w[7..] == w[6..] && [w[5]] + w[6..] == w[5..] && [w[4]] + w[5..] == w[4..];
    assert [w[3]] + w[4..] == w[3..] && [w[2]] + w[3..] == w[2..] && [w[1]] + w[2..] == w[1..] && [w[0]] + w[1..] == w;
  }

  /** The sign test: with 19 t9 / 2^25 as the guess, the quotient is -1 or 0 as h is negative or not. */
  lemma {:induction false} SignGuess(h: limbs, start: int, q: int, rem: int)
    requires Reduced(h) && start == (19 * h[9] + 0x100_0000) / 0x200_0000
    requires start + FeValue(h) == rem + TWO_255 * q && 0 <= rem < TWO_255
    ensures q == if FeValue(h) < 0 then -1 else 0
    ensures -P < FeValue(h) < P
  {
  }

  lemma {:induction false} CanonicalRange(t: limbs)
    requires Canonical(t, 5)
    ensures 0 <= FeValue(t) < TWO_255
  {
    assert 0 <= t[2 * 0] < 0x400_0000 && 0 <= t[2 * 0 + 1] < 0x200_0000;
    assert 0 <= t[2 * 1] < 0x400_0000 && 0 <= t[2 * 1 + 1] < 0x200_0000;
    assert 0 <= t[2 * 2] < 0x400_0000 && 0 <= t[2 * 2 + 1] < 0x200_0000;
    assert 0 <= t[2 * 3] < 0x400_0000 && 0 <= t[2 * 3 + 1] < 0x200_0000;
    assert 0 <= t[2 * 4] < 0x400_0000 && 0 <= t[2 * 4 + 1] < 0x200_0000;
  }

  lemma {:induction false} FinalReduction(v: int, q: int, out: int, excess: int)
    requires -P < v < P && q == if v < 0 then -1 else 0
    requires 0 <= out < TWO_255 && out + TWO_255 * excess == 19 * q + v
    ensures out == v % P
  {
    if v < 0 {
      assert excess == -1;
      assert v / P == -1;
    } else {
      assert excess == 0;
    }
  }

  /** The canonical little-endian encoding of a carried field element: its value modulo P */
  method FeToBytes(h: limbs) returns (s: seq<u8>)
    requires Reduced(h)
    ensures |s| == 32 && BytesValue(s) == FeValue(h) % P
  {
    hide FeValue, BytesValue, Packed, Words8;
    var guess: i32 := (19 * h[9] + 0x100_0000) / 0x200_0000;
    var q, rem := TopQuotient(h, guess);
    SignGuess(h, guess, q, rem);
    q := q * 19;
    var t, excess := Normalize(h, q);
    CanonicalRange(t);
    FinalReduction(FeValue(h), q / 19, FeValue(t), excess);
    PackedValue(t);
    var w := PackWords(t);
    Words8Value(w);
    StoreWordsValue(w);
    s := StoreWords(w);
  }

  lemma {:induction false} SameResidue(x: int, y: int, k: int)
    requires x == y - TimesP(k)
    ensures x % P == y % P
  {
    assert x / P == y / P - k;
  }

  /** Decoding any 32 bytes and encoding again gives the canonical form of the number without its
      top bit; bytes that are canonical already come back unchanged. */
  method DecodeEncode(s: seq<u8>) returns (r: seq<u8>)
    requires |s| == 32
    ensures |r| == 32 && BytesValue(r) == BytesValue(s) % TWO_255 % P
    ensures BytesValue(s) < P ==> r == s
  {
    hide FeValue, BytesValue;
    var h, k := FeFromBytesMask(s, 1);
    SameResidue(FeValue(h), BytesValue(s) % TWO_255, k);
    r := FeToBytes(h);
    if BytesValue(s) < P {
      assert BytesValue(s) % TWO_255 == BytesValue(s);
      BytesValueInjective(r, s);
    }
  }

  /** Decoding, multiplying and encoding is multiplication modulo P. */
  method MulBytes(a: seq<u8>, b: seq<u8>) returns (r: seq<u8>)
    requires |a| == |b| == 32
    ensures |r| == 32 && BytesValue(r) == (BytesValue(a) % TWO_255) * (BytesValue(b) % TWO_255) % P
  {
    hide FeValue, BytesValue, Times;
    var f, kf := FeFromBytesMask(a, 1);
    var g, kg := FeFromBytesMask(b, 1);
    var h, k := FeMul(f, g);
    ProductResidue(FeValue(f), FeValue(g), BytesValue(a) % TWO_255, BytesValue(b) % TWO_255, kf, kg, k, FeValue(h));
    r := FeToBytes(h);
  }

  lemma {:induction false} ProductResidue(f: int, g: int, a: int, b: int, kf: int, kg: int, k: int, h: int)
    requires f == a - TimesP(kf) && g == b - TimesP(kg) && h == f * g - TimesP(k)
    ensures h % P == a * b % P
  {
    var j := kf * b + kg * a - kf * TimesP(kg) + k;
    assert f * g == a * b - TimesP(kf) * b - a * TimesP(kg) + TimesP(kf) * TimesP(kg);
    assert TimesP(kf) * b == TimesP(kf * b) && a * TimesP(kg) == TimesP(kg * a);
    assert TimesP(kf) * TimesP(kg) == TimesP(kf * TimesP(kg));
    assert TimesP(j) == TimesP(kf * b) + TimesP(kg * a) - TimesP(kf * TimesP(kg)) + TimesP(k);
    SameResidue(h, a * b, j);
  }
}
