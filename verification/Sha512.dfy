/**
  The SHA-512 compression function: the 80-word message schedule of FIPS 180-4 section 6.4.2,
  and the form that computes it in place in the sixteen words of the block.
 */
module Sha512 {

  /** Addition modulo 2^64 */
  function Add(x: bv64, y: bv64): bv64 {
    x + y
  }

  lemma {:induction false} AddAssocRaw(x: bv64, y: bv64, z: bv64)
    ensures Add(x + y, z) == Add(x, y + z)
  {
  }

  lemma {:induction false} AddAssoc(x: bv64, y: bv64, z: bv64)
    ensures Add(Add(x, y), z) == Add(x, Add(y, z))
  {
    AddAssocRaw(x, y, z);
    assert Add(x, y) == x + y && Add(y, z) == y + z;
    hide Add;
  }

  lemma {:induction false} AddComm(x: bv64, y: bv64)
    ensures Add(x, y) == Add(y, x)
  {
  }

  // ----- the functions of FIPS 180-4 section 4.1.3

  function Rot(x: bv64, c: bv64): bv64
    requires 0 < c < 64
  {
    (x >> c) | (x << (64 - c))
  }

  function Ch(x: bv64, y: bv64, z: bv64): bv64 { (x & y) ^ (!x & z) }
  function Maj(x: bv64, y: bv64, z: bv64): bv64 { (x & y) ^ (x & z) ^ (y & z) }
  function BigSigma0(x: bv64): bv64 { Rot(x, 28) ^ Rot(x, 34) ^ Rot(x, 39) }
  function BigSigma1(x: bv64): bv64 { Rot(x, 14) ^ Rot(x, 18) ^ Rot(x, 41) }
  function LitSigma0(x: bv64): bv64 { Rot(x, 1) ^ Rot(x, 8) ^ (x >> 7) }
  function LitSigma1(x: bv64): bv64 { Rot(x, 19) ^ Rot(x, 61) ^ (x >> 6) }

  /** The round constants */
  function K(t: nat): bv64
    requires t < 80
  {
    [0x428a2f98d728ae22, 0x7137449123ef65cd, 0xb5c0fbcfec4d3b2f, 0xe9b5dba58189dbbc,
     0x3956c25bf348b538, 0x59f111f1b605d019, 0x923f82a4af194f9b, 0xab1c5ed5da6d8118,
     0xd807aa98a3030242, 0x12835b0145706fbe, 0x243185be4ee4b28c, 0x550c7dc3d5ffb4e2,
     0x72be5d74f27b896f, 0x80deb1fe3b1696b1, 0x9bdc06a725c71235, 0xc19bf174cf692694,
     0xe49b69c19ef14ad2, 0xefbe4786384f25e3, 0x0fc19dc68b8cd5b5, 0x240ca1cc77ac9c65,
     0x2de92c6f592b0275, 0x4a7484aa6ea6e483, 0x5cb0a9dcbd41fbd4, 0x76f988da831153b5,
     0x983e5152ee66dfab, 0xa831c66d2db43210, 0xb00327c898fb213f, 0xbf597fc7beef0ee4,
     0xc6e00bf33da88fc2, 0xd5a79147930aa725, 0x06ca6351e003826f, 0x142929670a0e6e70,
     0x27b70a8546d22ffc, 0x2e1b21385c26c926, 0x4d2c6dfc5ac42aed, 0x53380d139d95b3df,
     0x650a73548baf63de, 0x766a0abb3c77b2a8, 0x81c2c92e47edaee6, 0x92722c851482353b,
     0xa2bfe8a14cf10364, 0xa81a664bbc423001, 0xc24b8b70d0f89791, 0xc76c51a30654be30,
     0xd192e819d6ef5218, 0xd69906245565a910, 0xf40e35855771202a, 0x106aa07032bbd1b8,
     0x19a4c116b8d2d0c8, 0x1e376c085141ab53, 0x2748774cdf8eeb99, 0x34b0bcb5e19b48a8,
     0x391c0cb3c5c95a63, 0x4ed8aa4ae3418acb, 0x5b9cca4f7763e373, 0x682e6ff3d6b2b8a3,
     0x748f82ee5defb2fc, 0x78a5636f43172f60, 0x84c87814a1f0ab72, 0x8cc702081a6439ec,
     0x90befffa23631e28, 0xa4506cebde82bde9, 0xbef9a3f7b2c67915, 0xc67178f2e372532b,
     0xca273eceea26619c, 0xd186b8c721c0c207, 0xeada7dd6cde0eb1e, 0xf57d4f7fee6ed178,
     0x06f067aa72176fba, 0x0a637dc5a2c898a6, 0x113f9804bef90dae, 0x1b710b35131c471b,
     0x28db77f523047d84, 0x32caab7b40c72493, 0x3c9ebe0a15c9bebc, 0x431d67c49c100d4c,
     0x4cc5d4becb3e42b6, 0x597f299cfc657e2a, 0x5fcb6fab3ad6faec, 0x6c44198c4a475817][t]
  }

  // ----- specification

  type block = b: seq<bv64> | |b| == 16 witness seq(16, i => 0)
  type chain = h: seq<bv64> | |h| == 8 witness seq(8, i => 0)

  /** A schedule word from the words 16, 15, 7 and 2 places before it */
  function NextWord(w16: bv64, w15: bv64, w7: bv64, w2: bv64): bv64 {
    Add(Add(Add(LitSigma1(w2), w7), LitSigma0(w15)), w16)
  }

  /** Word t of the message schedule */
  function Schedule(b: block, t: nat): bv64 {
    if t < 16 then b[t]
    else NextWord(Schedule(b, t - 16), Schedule(b, t - 15), Schedule(b, t - 7), Schedule(b, t - 2))
  }

  datatype Vars = Vars(a: bv64, b: bv64, c: bv64, d: bv64, e: bv64, f: bv64, g: bv64, h: bv64)

  /** One round: the eight working variables, given the round constant and the schedule word */
  function Round(v: Vars, k: bv64, w: bv64): Vars {
    var t1 := Add(Add(Add(Add(v.h, BigSigma1(v.e)), Ch(v.e, v.f, v.g)), k), w);
    var t2 := Add(BigSigma0(v.a), Maj(v.a, v.b, v.c));
    Vars(Add(t1, t2), v.a, v.b, v.c, Add(v.d, t1), v.e, v.f, v.g)
  }

  function Rounds(v: Vars, b: block, t: nat): Vars
    requires t <= 80
  {
    if t == 0 then v else Round(Rounds(v, b, t - 1), K(t - 1), Schedule(b, t - 1))
  }

  function Start(h: chain): Vars {
    Vars(h[0], h[1], h[2], h[3], h[4], h[5], h[6], h[7])
  }

  /** The chaining value after one more block */
  function Compressed(h: chain, b: block): chain {
    var v := Rounds(Start(h), b, 80);
    [Add(h[0], v.a), Add(h[1], v.b), Add(h[2], v.c), Add(h[3], v.d),
     Add(h[4], v.e), Add(h[5], v.f), Add(h[6], v.g), Add(h[7], v.h)]
  }

  // ----- the in-place form

  /** One round as the source orders its sums */
  function StepVars(v: Vars, k: bv64, w: bv64): Vars {
    var t1 := Add(Add(Add(BigSigma1(v.e), Ch(v.e, v.f, v.g)), v.h), Add(k, w));
    var t2 := Add(BigSigma0(v.a), Maj(v.a, v.b, v.c));
    Vars(Add(t1, t2), v.a, v.b, v.c, Add(v.d, t1), v.e, v.f, v.g)
  }

  lemma {:induction false} StepIsRound(v: Vars, k: bv64, w: bv64)
    ensures StepVars(v, k, w) == Round(v, k, w)
  {
    hide BigSigma0, BigSigma1, Ch, Maj, Add;
    var s1, c := BigSigma1(v.e), Ch(v.e, v.f, v.g);
    AddComm(Add(s1, c), v.h);
    AddAssoc(v.h, s1, c);
    AddAssoc(Add(Add(v.h, s1), c), k, w);
  }

  /** The schedule index that word m of the buffer holds when words below j are one turn ahead */
  function Held(turn: nat, j: nat, m: nat): nat {
    if m < j then 16 * turn + 16 + m else 16 * turn + m
  }

  lemma {:induction false} SumOrder(w16: bv64, w15: bv64, w7: bv64, w2: bv64)
    ensures Add(Add(Add(w16, LitSigma1(w2)), LitSigma0(w15)), w7) == NextWord(w16, w15, w7, w2)
  {
    hide LitSigma0, LitSigma1;
    var s0, s1 := LitSigma0(w15), LitSigma1(w2);
    hide Add;
    // ((w16 + s1) + s0) + w7 == (s1 + s0) + w7 + w16 == ((s1 + w7) + s0) + w16
    AddComm(w16, s1);
    AddAssoc(s1, w16, s0);
    AddComm(w16, s0);
    AddAssoc(s1, s0, w16);
    AddAssoc(Add(s1, s0), w16, w7);
    AddComm(w16, w7);
    AddAssoc(Add(s1, s0), w7, w16);
    AddAssoc(s1, s0, w7);
    AddComm(s0, w7);
    AddAssoc(s1, w7, s0);
  }

  lemma {:induction false} ScheduleStep(b: block, t: nat)
    requires t >= 16
    ensures Schedule(b, t) == NextWord(Schedule(b, t - 16), Schedule(b, t - 15), Schedule(b, t - 7), Schedule(b, t - 2))
  {
    hide NextWord;
  }

  lemma {:induction false} ScheduleStart(b: block, t: nat)
    requires t < 16
    ensures Schedule(b, t) == b[t]
  {
  }

  /** Where the four words that the next one is made of are held */
  lemma {:induction false} HeldFour(turn: nat, j: nat)
    requires j < 16
    ensures Held(turn, j, j) == 16 * turn + j && Held(turn, j, (j + 14) % 16) == 16 * turn + j + 14
    ensures Held(turn, j, (j + 1) % 16) == 16 * turn + j + 1 && Held(turn, j, (j + 9) % 16) == 16 * turn + j + 9
  {
  }

  lemma {:induction false} HeldNext(turn: nat, j: nat, m: nat)
    requires j < 16 && m < 16
    ensures Held(turn, j + 1, m) == if m == j then 16 * turn + 16 + j else Held(turn, j, m)
    ensures Held(turn, 16, m) == Held(turn + 1, 0, m) && Held(turn, 0, m) == 16 * turn + m
  {
  }

  /** Replaces word j of the buffer by the schedule word one turn later */
  method Advance(input: array<bv64>, j: nat, ghost blk: block, ghost turn: nat)
    requires input.Length == 16 && j < 16
    requires forall m :: 0 <= m < 16 ==> input[m] == Schedule(blk, Held(turn, j, m))
    modifies input
    ensures forall m :: 0 <= m < 16 ==> input[m] == Schedule(blk, Held(turn, j + 1, m))
  {
    hide NextWord, Schedule, LitSigma0, LitSigma1, Add, Held;
    ghost var t := 16 * turn + 16 + j;
    var i2, i15, i7 := (j + 14) % 16, (j + 1) % 16, (j + 9) % 16;
    HeldFour(turn, j);
    ScheduleStep(blk, t);
    SumOrder(input[j], input[i15], input[i7], input[i2]);
    input[j] := Add(input[j], LitSigma1(input[i2]));
    input[j] := Add(input[j], LitSigma0(input[i15]));
    input[j] := Add(input[j], input[i7]);
    assert input[j] == Schedule(blk, t);
    forall m | 0 <= m < 16 ensures input[m] == Schedule(blk, Held(turn, j + 1, m)) {
      HeldNext(turn, j, m);
    }
  }

  lemma {:induction false} RoundsStep(start: Vars, blk: block, t: nat)
    requires t < 80
    ensures Rounds(start, blk, 0) == start
    ensures Rounds(start, blk, t + 1) == StepVars(Rounds(start, blk, t), K(t), Schedule(blk, t))
  {
    hide Round, StepVars, Schedule, K;
    StepIsRound(Rounds(start, blk, t), K(t), Schedule(blk, t));
  }

  /** All 80 rounds; input is left holding the last 16 schedule words. */
  method RunRounds(start: Vars, input: array<bv64>) returns (v: Vars)
    requires input.Length == 16
    modifies input
    ensures v == Rounds(start, old(input[..]), 80)
  {
    hide Ch, Maj, BigSigma0, BigSigma1, LitSigma0, LitSigma1, Round, StepVars, NextWord, Schedule, Add, K, Held, Rounds;
    ghost var blk: block := input[..];
    RoundsStep(start, blk, 0);
    v := start;
    for j := 0 to 16
      invariant input[..] == blk
      invariant v == Rounds(start, blk, j)
    {
      ScheduleStart(blk, j);
      RoundsStep(start, blk, j);
      v := StepVars(v, K(j), input[j]);
    }
    forall m | 0 <= m < 16 ensures input[m] == Schedule(blk, Held(0, 0, m)) {
      ScheduleStart(blk, m);
      HeldNext(0, 0, m);
    }
    for i := 1 to 5
      invariant forall m :: 0 <= m < 16 ==> input[m] == Schedule(blk, Held(i - 1, 0, m))
      invariant v == Rounds(start, blk, 16 * i)
    {
      for j := 0 to 16
        invariant forall m :: 0 <= m < 16 ==> input[m] == Schedule(blk, Held(i - 1, j, m))
        invariant v == Rounds(start, blk, 16 * i + j)
      {
        Advance(input, j, blk, i - 1);
        HeldNext(i - 1, j, j);
        RoundsStep(start, blk, 16 * i + j);
        v := StepVars(v, K(16 * i + j), input[j]);
      }
      forall m | 0 <= m < 16 ensures input[m] == Schedule(blk, Held(i, 0, m)) {
        HeldNext(i - 1, 0, m);
      }
    }
  }

  /** Mixes the block in input into the chaining value. */
  method Compress(hash: chain, input: array<bv64>) returns (hash': chain)
    requires input.Length == 16
    modifies input
    ensures hash' == Compressed(hash, old(input[..]))
  {
    hide Rounds, Add;
    var v := RunRounds(Start(hash), input);
    hash' := [Add(hash[0], v.a), Add(hash[1], v.b), Add(hash[2], v.c), Add(hash[3], v.d),
              Add(hash[4], v.e), Add(hash[5], v.f), Add(hash[6], v.g), Add(hash[7], v.h)];
  }
}
