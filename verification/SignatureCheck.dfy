/**
  The verification equation of an Ed25519 signature, over an abstract abelian group: the curve
  enters through its addition, negation and point decoding only.
 */
module SignatureCheck {
  import opened Common
  import opened Limbs
  import opened SlidingWindow
  import opened ScalarModL

  datatype Group<!G> = Group(zero: G, add: (G, G) -> G, neg: G -> G)

  ghost predicate Abelian<G(!new)>(g: Group<G>) {
    && (forall x, y, z :: g.add(g.add(x, y), z) == g.add(x, g.add(y, z)))
    && (forall x, y :: g.add(x, y) == g.add(y, x))
    && (forall x :: g.add(x, g.zero) == x)
    && (forall x :: g.add(x, g.neg(x)) == g.zero)
  }

  lemma {:induction false} Assoc<G(!new)>(g: Group<G>, x: G, y: G, z: G)
    requires Abelian(g)
    ensures g.add(g.add(x, y), z) == g.add(x, g.add(y, z))
  {
  }

  lemma {:induction false} Comm<G(!new)>(g: Group<G>, x: G, y: G)
    requires Abelian(g)
    ensures g.add(x, y) == g.add(y, x)
  {
  }

  lemma {:induction false} Unit<G(!new)>(g: Group<G>, x: G)
    requires Abelian(g)
    ensures g.add(x, g.zero) == x
    ensures g.add(x, g.neg(x)) == g.zero
  {
  }

  /** (a + b) + (c + d) == (a + c) + (b + d) */
  lemma {:induction false} Interchange<G(!new)>(g: Group<G>, a: G, b: G, c: G, d: G)
    requires Abelian(g)
    ensures g.add(g.add(a, b), g.add(c, d)) == g.add(g.add(a, c), g.add(b, d))
  {
    hide Abelian;
    Assoc(g, a, b, g.add(c, d));
    Assoc(g, b, c, d);
    Comm(g, b, c);
    Assoc(g, c, b, d);
    Assoc(g, a, c, g.add(b, d));
  }

  lemma {:induction false} CancelRight<G(!new)>(g: Group<G>, x: G, y: G)
    requires Abelian(g)
    ensures g.add(g.add(x, y), g.neg(y)) == x
  {
    hide Abelian;
    Assoc(g, x, y, g.neg(y));
    Unit(g, y);
    Unit(g, x);
  }

  /** [n]p: p added n times, or its inverse added -n times */
  function Scale<G>(g: Group<G>, n: int, p: G): G
    decreases if n < 0 then -n else n
  {
    if n == 0 then g.zero
    else if n > 0 then g.add(Scale(g, n - 1, p), p)
    else g.add(Scale(g, n + 1, p), g.neg(p))
  }

  lemma {:induction false} ScaleSucc<G(!new)>(g: Group<G>, n: int, p: G)
    requires Abelian(g)
    ensures Scale(g, n + 1, p) == g.add(Scale(g, n, p), p)
    ensures Scale(g, n, p) == g.add(Scale(g, n + 1, p), g.neg(p))
  {
    hide Abelian;
    if n >= 0 {
      CancelRight(g, Scale(g, n, p), p);
    } else {
      var q := Scale(g, n + 1, p);
      Assoc(g, q, g.neg(p), p);
      Comm(g, g.neg(p), p);
      Unit(g, p);
      Unit(g, q);
    }
  }

  lemma {:induction false} ScaleAdd<G(!new)>(g: Group<G>, m: int, n: int, p: G)
    requires Abelian(g)
    ensures Scale(g, m + n, p) == g.add(Scale(g, m, p), Scale(g, n, p))
    decreases if n < 0 then -n else n
  {
    hide Abelian;
    if n == 0 {
      Unit(g, Scale(g, m, p));
    } else if n > 0 {
      ScaleAdd(g, m, n - 1, p);
      ScaleSucc(g, m + (n - 1), p);
      Assoc(g, Scale(g, m, p), Scale(g, n - 1, p), p);
    } else {
      ScaleAdd(g, m, n + 1, p);
      ScaleSucc(g, m + n, p);
      Assoc(g, Scale(g, m, p), Scale(g, n + 1, p), g.neg(p));
    }
  }

  lemma {:induction false} ScaleNeg<G(!new)>(g: Group<G>, n: int, p: G)
    requires Abelian(g)
    ensures g.neg(Scale(g, -n, p)) == Scale(g, n, p)
  {
    hide Abelian;
    var x, y := Scale(g, n, p), Scale(g, -n, p);
    ScaleAdd(g, n, -n, p);
    assert Scale(g, 0, p) == g.zero;
    hide Scale;
    CancelRight(g, x, y);
    Comm(g, g.zero, g.neg(y));
    Unit(g, g.neg(y));
  }

  // ----- the merged ladder

  /** [h]a + [s]b */
  ghost function Combined<G>(g: Group<G>, h: int, a: G, s: int, b: G): G {
    g.add(Scale(g, h, a), Scale(g, s, b))
  }

  lemma {:induction false} CombinedAdd<G(!new)>(g: Group<G>, h: int, h': int, a: G, s: int, s': int, b: G)
    requires Abelian(g)
    ensures Combined(g, h + h', a, s + s', b) == g.add(Combined(g, h, a, s, b), Combined(g, h', a, s', b))
  {
    hide Abelian, Scale;
    ScaleAdd(g, h, h', a);
    ScaleAdd(g, s, s', b);
    Interchange(g, Scale(g, h, a), Scale(g, s, b), Scale(g, h', a), Scale(g, s', b));
  }

  /** lut[k] is the odd multiple [2k+1]p. */
  ghost predicate OddMultiples<G>(g: Group<G>, lut: seq<G>, p: G) {
    forall k :: 0 <= k < |lut| ==> lut[k] == Scale(g, 2 * k + 1, p)
  }

  /** Adds [d]p to the sum by one table look-up, for an odd or zero digit d */
  function AddDigit<G>(g: Group<G>, sum: G, lut: seq<G>, d: int): G
    requires -2 * |lut| < d < 2 * |lut|
  {
    if d > 0 then g.add(sum, lut[d / 2])
    else if d < 0 then g.add(sum, g.neg(lut[(-d) / 2]))
    else sum
  }

  lemma {:induction false} AddDigitScale<G(!new)>(g: Group<G>, sum: G, lut: seq<G>, d: int, p: G)
    requires Abelian(g) && OddMultiples(g, lut, p)
    requires -2 * |lut| < d < 2 * |lut| && (d == 0 || d % 2 == 1)
    ensures AddDigit(g, sum, lut, d) == g.add(sum, Scale(g, d, p))
  {
    hide Abelian;
    if d > 0 {
      assert 2 * (d / 2) + 1 == d;
    } else if d < 0 {
      assert 2 * ((-d) / 2) + 1 == -d;
      ScaleNeg(g, d, p);
    } else {
      Unit(g, sum);
    }
  }

  /** One round of the ladder: double, then add a digit of each scalar. */
  lemma {:induction false} LadderRound<G(!new)>(g: Group<G>, h: int, hd: int, a: G, s: int, sd: int, b: G, lutA: seq<G>,
      lutB: seq<G>)
    requires Abelian(g) && OddMultiples(g, lutA, a) && OddMultiples(g, lutB, b)
    requires -2 * |lutA| < hd < 2 * |lutA| && (hd == 0 || hd % 2 == 1)
    requires -2 * |lutB| < sd < 2 * |lutB| && (sd == 0 || sd % 2 == 1)
    ensures var c := Combined(g, h, a, s, b);
            AddDigit(g, AddDigit(g, g.add(c, c), lutA, hd), lutB, sd) == Combined(g, 2 * h + hd, a, 2 * s + sd, b)
  {
    hide Abelian, OddMultiples, AddDigit;
    var c := Combined(g, h, a, s, b);
    CombinedAdd(g, h, h, a, s, s, b);
    CombinedAdd(g, 2 * h, hd, a, 2 * s, sd, b);
    var d := g.add(c, c);
    AddDigitScale(g, d, lutA, hd, a);
    AddDigitScale(g, g.add(d, Scale(g, hd, a)), lutB, sd, b);
    Assoc(g, d, Scale(g, hd, a), Scale(g, sd, b));
    assert h + h == 2 * h && s + s == 2 * s;
  }

  const P_W_WIDTH: int := 3
  const B_W_WIDTH: int := 5

  lemma {:induction false} SmallMultiples<G(!new)>(g: Group<G>, a: G)
    requires Abelian(g)
    ensures Scale(g, 0, a) == g.zero && Scale(g, 1, a) == a && Scale(g, 2, a) == g.add(a, a)
    ensures Scale(g, 3, a) == g.add(g.add(a, a), a)
  {
    hide Abelian;
    assert Scale(g, 0, a) == g.zero;
    ScaleSucc(g, 0, a);
    Comm(g, g.zero, a);
    Unit(g, a);
    ScaleSucc(g, 1, a);
    ScaleSucc(g, 2, a);
    hide Scale;
  }

  /** The two odd multiples of a that a window of width 3 needs */
  method BuildTable<G(!new)>(g: Group<G>, a: G) returns (lut: seq<G>)
    requires Abelian(g)
    ensures |lut| == 2 && OddMultiples(g, lut, a)
  {
    var a2 := g.add(a, a);
    SmallMultiples(g, a);
    hide Abelian, Scale;
    lut := [a];
    for i := 1 to 2
      invariant |lut| == i && OddMultiples(g, lut, a)
    {
      lut := lut + [g.add(a2, lut[i - 1])];
    }
  }

  /** [s]b + [h]a by one double-and-add pass over the signed windows of both scalars */
  method Ladder<G(!new)>(g: Group<G>, a: G, h: seq<u8>, b: G, bWindow: seq<G>, s: seq<u8>) returns (sum: G)
    requires Abelian(g) && |bWindow| == 8 && OddMultiples(g, bWindow, b)
    requires |h| == 32 && BytesValue(h) < Pow2(253)
    requires |s| == 32 && BytesValue(s) < Pow2(253)
    ensures sum == Combined(g, BytesValue(h), a, BytesValue(s), b)
  {
    hide Abelian, OddMultiples, Pow2, BytesValue, Weight, Twos, AddDigit, Combined;
    var lutA := BuildTable(g, a);
    var hSlide := new SlideCtx.Init(h);
    var sSlide := new SlideCtx.Init(s);
    var i := if hSlide.nextCheck >= sSlide.nextCheck then hSlide.nextCheck else sSlide.nextCheck;
    sum := g.zero;
    ghost var hAcc, sAcc := 0, 0;
    ZeroCombined(g, a, b);
    while i >= 0
      invariant -1 <= i <= 253
      invariant fresh(hSlide) && fresh(sSlide) && hSlide != sSlide
      invariant hSlide.Tracks(h, P_W_WIDTH, i, hAcc) && sSlide.Tracks(s, B_W_WIDTH, i, sAcc)
      invariant sum == Combined(g, hAcc, a, sAcc, b)
    {
      var hDigit := hSlide.Step(P_W_WIDTH, i, h, hAcc);
      var sDigit := sSlide.Step(B_W_WIDTH, i, s, sAcc);
      DigitRange(hDigit, sDigit);
      LadderRound(g, hAcc, hDigit, a, sAcc, sDigit, b, lutA, bWindow);
      sum := AddDigit(g, AddDigit(g, g.add(sum, sum), lutA, hDigit), bWindow, sDigit);
      hAcc, sAcc := 2 * hAcc + hDigit, 2 * sAcc + sDigit;
      i := i - 1;
    }
    Finished(hAcc, sAcc, h, s);
  }

  lemma {:induction false} ZeroCombined<G(!new)>(g: Group<G>, a: G, b: G)
    requires Abelian(g)
    ensures Combined(g, 0, a, 0, b) == g.zero
  {
    Unit(g, g.zero);
  }

  lemma {:induction false} DigitRange(hDigit: int, sDigit: int)
    requires hDigit == 0 || IsDigit(hDigit, P_W_WIDTH)
    requires sDigit == 0 || IsDigit(sDigit, B_W_WIDTH)
    ensures -4 < hDigit < 4 && (hDigit == 0 || hDigit % 2 == 1)
    ensures -16 < sDigit < 16 && (sDigit == 0 || sDigit % 2 == 1)
  {
    SmallWeights(1);
  }

  lemma {:induction false} Finished(hAcc: int, sAcc: int, h: seq<u8>, s: seq<u8>)
    ensures Weight(hAcc, 0) == hAcc && Weight(sAcc, 0) == sAcc
    ensures |h| > 0 ==> Twos(h, -1) == 0
    ensures |s| > 0 ==> Twos(s, -1) == 0
  {
  }

  /** Eight times a point, by three doublings */
  lemma {:induction false} EightTimes<G(!new)>(g: Group<G>, p: G)
    requires Abelian(g)
    ensures var p2 := g.add(p, p); var p4 := g.add(p2, p2); g.add(p4, p4) == Scale(g, 8, p)
  {
    hide Abelian;
    SmallMultiples(g, p);
    ScaleAdd(g, 2, 2, p);
    ScaleAdd(g, 4, 4, p);
    hide Scale;
  }

  /** What a valid signature (R, S) satisfies: both points decode, S is reduced, and
      [8]([S]B - [h]A - R) is the neutral element (the cofactored equation of section 5.1.7 of
      RFC 8032).  decodeNeg gives the negated point, so -A and -R enter by addition. */
  ghost predicate Accepts<G>(g: Group<G>, b: G, decodeNeg: seq<u8> -> Option<G>, signature: seq<u8>, publicKey: seq<u8>,
      h: int)
    requires |signature| == 64
  {
    var s := BytesValue(signature[32..]);
    match (decodeNeg(publicKey), decodeNeg(signature[..32]))
    case (Some(minusA), Some(minusR)) =>
      s < ELL && Scale(g, 8, g.add(Combined(g, h, minusA, s, b), minusR)) == g.zero
    case _ => false
  }

  lemma {:induction false} Weight32(x: int)
    ensures Weight(x, 32) == 0x1_00000000 * x
  {
    hide Weight;
    SmallWeights(x);
    SmallWeights(Weight(x, 8));
    SmallWeights(Weight(x, 16));
    SmallWeights(Weight(x, 24));
    WeightTwice(x, 8, 8);
    WeightTwice(x, 16, 8);
    WeightTwice(x, 24, 8);
  }

  lemma {:induction false} Weight128(x: int)
    ensures Weight(x, 96) == 0x1_00000000_00000000_00000000 * x
    ensures Weight(x, 128) == 0x1_00000000_00000000_00000000_00000000 * x
  {
    hide Weight;
    Weight32(x);
    Weight32(Weight(x, 32));
    Weight32(Weight(x, 64));
    Weight32(Weight(x, 96));
    WeightTwice(x, 32, 32);
    WeightTwice(x, 64, 32);
    WeightTwice(x, 96, 32);
  }

  /** A reduced scalar has no bit from position 253 up. */
  lemma {:induction false} ReducedFits(v: int)
    requires v < ELL
    ensures v < Pow2(253)
  {
    hide Weight;
    Weight128(1);
    Weight128(Weight(1, 128));
    WeightTwice(1, 128, 96);
    SmallWeights(Weight(1, 224));
    SmallWeights(Weight(1, 232));
    SmallWeights(Weight(1, 240));
    SmallWeights(Weight(1, 248));
    WeightTwice(1, 224, 8);
    WeightTwice(1, 232, 8);
    WeightTwice(1, 240, 8);
    WeightTwice(1, 248, 5);
  }

  /** 0 if the signature is accepted, -1 if not.  h is a hash that has been reduced modulo L. */
  method CheckEquation<G(!new, ==)>(g: Group<G>, b: G, bWindow: seq<G>, decodeNeg: seq<u8> -> Option<G>,
                                    signature: seq<u8>, publicKey: seq<u8>, h: seq<u8>) returns (r: int)
    requires Abelian(g) && |bWindow| == 8 && OddMultiples(g, bWindow, b)
    requires |signature| == 64 && |h| == 32 && BytesValue(h) < ELL
    ensures r == if Accepts(g, b, decodeNeg, signature, publicKey, BytesValue(h)) then 0 else -1
  {
    hide Abelian, OddMultiples, Combined, Scale;
    var s := signature[32..];
    var minusA, minusR := decodeNeg(publicKey), decodeNeg(signature[..32]);
    LoadWordsValue(s);
    var above := IsAboveL(LoadWords(s));
    if minusA.None? || minusR.None? || above != 0 {
      return -1;
    }
    ReducedFits(BytesValue(h));
    ReducedFits(BytesValue(s));
    var sum := Ladder(g, minusA.value, h, b, bWindow, s);
    sum := g.add(sum, minusR.value);
    EightTimes(g, sum);
    sum := g.add(sum, sum);
    sum := g.add(sum, sum);
    sum := g.add(sum, sum);
    r := if sum == g.zero then 0 else -1;
  }
}
