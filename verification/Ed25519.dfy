/**
  Ed25519 signing and checking (sections 5.1.6 and 5.1.7 of RFC 8032), put together from the
  hash, the scalar arithmetic and the verification equation.
 */
module Ed25519 {
  import opened Common
  import opened Limbs
  import opened ScalarModL
  import opened SignatureCheck
  import H = Sha512Stream

  /** The curve as the code uses it: a group, its base point and the encoding of points */
  datatype Curve<!G> = Curve(group: Group<G>, base: G, encode: G -> seq<u8>, decodeNeg: seq<u8> -> Option<G>)

  /** The base point has order L, and decoding inverts encoding up to the sign. */
  ghost predicate Sound<G(!new)>(c: Curve<G>) {
    && Abelian(c.group)
    && Scale(c.group, ELL, c.base) == c.group.zero
    && forall p :: |c.encode(p)| == 32 && c.decodeNeg(c.encode(p)) == Some(c.group.neg(p))
  }

  function Bits(b: seq<u8>): (r: seq<H.byte>)
    ensures |r| == |b|
  {
    seq(|b|, i requires 0 <= i < |b| => b[i] as bv8)
  }

  function Ints(b: seq<H.byte>): (r: seq<u8>)
    ensures |r| == |b|
  {
    seq(|b|, i requires 0 <= i < |b| => b[i] as int)
  }

  /** SHA-512 of a message, read as a little-endian number and reduced modulo L */
  function HashModL(m: seq<u8>): (h: int)
    ensures 0 <= h < ELL
  {
    BytesValue(Ints(H.Digest(Bits(m)))) % ELL
  }

  /** The reduced hash of four strings, absorbed one after the other */
  method HashReduce(a: seq<u8>, b: seq<u8>, c: seq<u8>, d: seq<u8>) returns (h: seq<u8>)
    ensures |h| == 32 && BytesValue(h) == HashModL(a + b + c + d)
  {
    hide H.Digest, BytesValue, Concat;
    var parts := [Bits(a), Bits(b), Bits(c), Bits(d)];
    ConcatFour(a, b, c, d);
    var digest := H.HashParts(parts);
    h := EddsaReduce(Ints(digest));
  }

  lemma {:induction false} ConcatFour(a: seq<u8>, b: seq<u8>, c: seq<u8>, d: seq<u8>)
    ensures Concat([Bits(a), Bits(b), Bits(c), Bits(d)]) == Bits(a + b + c + d)
  {
    hide Bits;
    var parts := [Bits(a), Bits(b), Bits(c), Bits(d)];
    ConcatEmpty(parts);
    ConcatStep(parts, 0);
    ConcatStep(parts, 1);
    ConcatStep(parts, 2);
    ConcatStep(parts, 3);
    assert parts[..4] == parts;
    BitsAppend(a, b);
    BitsAppend(a + b, c);
    BitsAppend(a + b + c, d);
    hide Concat;
  }

  lemma {:induction false} BitsAppend(a: seq<u8>, b: seq<u8>)
    ensures Bits(a + b) == Bits(a) + Bits(b)
  {
  }

  /** Whether a signature on a message is accepted: the equation with h = H(R, A, M) mod L */
  ghost predicate Valid<G(!new)>(c: Curve<G>, signature: seq<u8>, publicKey: seq<u8>, message: seq<u8>)
    requires |signature| == 64
  {
    Accepts(c.group, c.base, c.decodeNeg, signature, publicKey, HashModL(signature[..32] + publicKey + message))
  }

  /** 0 if the signature is valid, -1 if not */
  method Check<G(!new, ==)>(c: Curve<G>, bWindow: seq<G>, signature: seq<u8>, publicKey: seq<u8>, message: seq<u8>)
    returns (r: int)
    requires Abelian(c.group) && |bWindow| == 8 && OddMultiples(c.group, bWindow, c.base)
    requires |signature| == 64
    ensures r == if Valid(c, signature, publicKey, message) then 0 else -1
  {
    hide Abelian, OddMultiples, BytesValue, HashModL, Scale, Combined;
    var h := HashReduce(signature[..32], publicKey, message, []);
    assert signature[..32] + publicKey + message + [] == signature[..32] + publicKey + message;
    r := CheckEquation(c.group, c.base, bWindow, c.decodeNeg, signature, publicKey, h);
  }

  // ----- keys

  /** The hash of a seed: the secret scalar, still untrimmed, and the nonce prefix */
  function SeedHash(seed: seq<u8>): (h: seq<u8>)
    ensures |h| == 64
  {
    Ints(H.Digest(Bits(seed)))
  }

  /** The scalar with its low three bits and its top bit cleared and its second highest bit set */
  function Trimmed(a: seq<u8>): (t: seq<u8>)
    requires |a| == 32
    ensures |t| == 32
  {
    a[0 := a[0] / 8 * 8][31 := a[31] % 0x40 + 0x40]
  }

  function SecretScalar(seed: seq<u8>): (a: seq<u8>)
    ensures |a| == 32
  {
    Trimmed(SeedHash(seed)[..32])
  }

  function NoncePrefix(seed: seq<u8>): seq<u8> {
    SeedHash(seed)[32..]
  }

  lemma {:induction false} TopByte(s: seq<u8>, n: nat)
    requires n < |s|
    ensures BytesValue(s[..n + 1]) == BytesValue(s[..n]) + Weight(s[n], 8 * n) && BytesValue(s[..n]) < Weight(1, 8 * n)
    decreases n
  {
    hide Weight;
    if n == 0 {
      FirstByte(s);
    } else {
      TopByte(s[1..], n - 1);
      assert s[..n + 1][1..] == s[1..][..n] && s[..n][1..] == s[1..][..n - 1];
      Byte(s[n], n - 1);
      Byte(1, n - 1);
    }
  }

  lemma {:induction false} FirstByte(s: seq<u8>)
    requires s != []
    ensures BytesValue(s[..1]) == s[0] && BytesValue(s[..0]) == 0 && Weight(s[0], 0) == s[0] && Weight(1, 0) == 1
  {
    assert s[..1][1..] == [];
  }

  lemma {:induction false} Byte(x: int, n: nat)
    ensures Weight(x, 8 * (n + 1)) == 0x100 * Weight(x, 8 * n)
  {
    WeightTwice(x, 8 * n, 8);
    SmallWeights(Weight(x, 8 * n));
  }

  /** A trimmed scalar is a multiple of the cofactor 8, from 2^254 up and below 2^255. */
  lemma {:induction false} TrimmedRange(a: seq<u8>)
    requires |a| == 32
    ensures BytesValue(Trimmed(a)) % 8 == 0 && Pow2(254) <= BytesValue(Trimmed(a)) < Pow2(255)
  {
    hide Weight, Pow2;
    var t := Trimmed(a);
    LowBits(t);
    TopByte(t, 31);
    assert t[..32] == t;
    hide BytesValue;
    TopBits(t[31], 248);
  }

  lemma {:induction false} LowBits(t: seq<u8>)
    requires t != [] && t[0] % 8 == 0
    ensures BytesValue(t) % 8 == 0
  {
    var rest := BytesValue(t[1..]);
    assert BytesValue(t) == t[0] + 0x100 * rest;
    assert t[0] == 8 * (t[0] / 8);
    assert BytesValue(t) == 8 * (t[0] as int / 8 + 0x20 * rest);
  }

  lemma {:induction false} TopBits(x: int, n: nat)
    requires 0x40 <= x < 0x80
    ensures Pow2(n + 6) <= Weight(x, n) && Weight(x, n) + Weight(1, n) <= Pow2(n + 7)
  {
    SmallWeights(1);
    WeightTwice(1, 6, n);
    WeightTwice(1, 7, n);
    WeightAdd(0x40, x - 0x40, n);
    WeightOrder(x - 0x40, n);
    WeightAdd(x, 1, n);
    WeightAdd(x + 1, 0x80 - (x + 1), n);
    WeightOrder(0x80 - (x + 1), n);
    hide Weight;
  }

  /** Hashes a seed and splits the hash into the trimmed scalar and the prefix. */
  method ExpandKey(seed: seq<u8>) returns (a: seq<u8>, prefix: seq<u8>)
    ensures a == SecretScalar(seed) && prefix == NoncePrefix(seed)
  {
    hide H.Digest, Concat;
    var digest := H.HashParts([Bits(seed)]);
    ConcatEmpty([Bits(seed)]);
    ConcatStep([Bits(seed)], 0);
    assert [Bits(seed)][..1] == [Bits(seed)] && [] + Bits(seed) == Bits(seed);
    var hash := Ints(digest);
    a, prefix := Trimmed(hash[..32]), hash[32..];
  }

  function PublicKey<G(!new)>(c: Curve<G>, seed: seq<u8>): seq<u8> {
    c.encode(Scale(c.group, BytesValue(SecretScalar(seed)), c.base))
  }

  /** The secret key is the seed followed by the public key, the multiple of B by the secret scalar. */
  method KeyPair<G(!new)>(c: Curve<G>, seed: seq<u8>) returns (secretKey: seq<u8>, publicKey: seq<u8>)
    requires Sound(c) && |seed| == 32
    ensures publicKey == PublicKey(c, seed) && secretKey == seed + publicKey && |secretKey| == 64
  {
    hide BytesValue, Scale, Abelian, SecretScalar, NoncePrefix;
    var a, _ := ExpandKey(seed);
    publicKey := c.encode(Scale(c.group, BytesValue(a), c.base));
    secretKey := seed + publicKey;
  }

  /** The signature of a message: R = [r]B for r = H(prefix, M) mod L, and S = H(R, A, M) a + r mod L */
  method Sign<G(!new)>(c: Curve<G>, secretKey: seq<u8>, message: seq<u8>) returns (signature: seq<u8>)
    requires Sound(c) && |secretKey| == 64
    ensures |signature| == 64
    ensures IsSignature(c, secretKey[..32], secretKey[32..], message, signature)
  {
    hide BytesValue, HashModL, Scale, Abelian, SecretScalar, NoncePrefix;
    var publicKey := secretKey[32..];
    var a, prefix := ExpandKey(secretKey[..32]);
    var r := HashReduce([], prefix, message, []);
    assert [] + prefix + message + [] == prefix + message;
    var R := c.encode(Scale(c.group, BytesValue(r), c.base));
    var h := HashReduce([], R, publicKey, message);
    assert [] + R + publicKey + message == R + publicKey + message;
    var s := EddsaMulAdd(h, a, r);
    signature := R + s;
    assert signature[..32] == R && signature[32..] == s;
  }

  /** What section 5.1.6 of RFC 8032 makes of a seed, a public key and a message */
  ghost predicate IsSignature<G(!new)>(c: Curve<G>, seed: seq<u8>, publicKey: seq<u8>, message: seq<u8>,
      signature: seq<u8>) {
    && |signature| == 64
    && var r := HashModL(NoncePrefix(seed) + message);
    && var h := HashModL(signature[..32] + publicKey + message);
    && signature[..32] == c.encode(Scale(c.group, r, c.base))
    && BytesValue(signature[32..]) == (h * BytesValue(SecretScalar(seed)) + r) % ELL
  }

  /** [m]([n]p) == [m*n]p */
  lemma {:induction false} ScaleScale<G(!new)>(g: Group<G>, m: int, n: int, p: G)
    requires Abelian(g)
    ensures Scale(g, m, Scale(g, n, p)) == Scale(g, m * n, p)
    decreases if m < 0 then -m else m
  {
    hide Abelian;
    var q := Scale(g, n, p);
    if m == 0 {
      assert Scale(g, 0, q) == g.zero == Scale(g, 0, p);
    } else if m > 0 {
      ScaleScale(g, m - 1, n, p);
      ScaleSucc(g, m - 1, q);
      ScaleAdd(g, (m - 1) * n, n, p);
      assert (m - 1) * n + n == m * n;
    } else {
      ScaleScale(g, m + 1, n, p);
      ScaleSucc(g, m, q);
      ScaleAdd(g, (m + 1) * n, -n, p);
      ScaleNeg(g, -n, p);
      assert (m + 1) * n + -n == m * n;
    }
  }

  lemma {:induction false} ScaleZero<G(!new)>(g: Group<G>, n: int)
    requires Abelian(g)
    ensures Scale(g, n, g.zero) == g.zero
  {
    ScaleScale(g, n, 0, g.zero);
    assert Scale(g, 0, g.zero) == g.zero;
  }

  /** [h](-[a]B) + [s]B - [r]B == [s - h a - r]B */
  lemma {:induction false} EquationScalar<G(!new)>(g: Group<G>, b: G, h: int, a: int, s: int, r: int)
    requires Abelian(g)
    ensures g.add(Combined(g, h, g.neg(Scale(g, a, b)), s, b), g.neg(Scale(g, r, b))) == Scale(g, s - h * a - r, b)
  {
    hide Abelian, Scale;
    ScaleNeg(g, -a, b);
    ScaleNeg(g, -r, b);
    ScaleScale(g, h, -a, b);
    ScaleAdd(g, h * -a, s, b);
    ScaleAdd(g, h * -a + s, -r, b);
    assert h * -a + s + -r == s - h * a - r;
  }

  /** A signature made with a generated key pair is always accepted. */
  method SignThenCheck<G(!new, ==)>(c: Curve<G>, bWindow: seq<G>, seed: seq<u8>, message: seq<u8>) returns (r: int)
    requires Sound(c) && |seed| == 32 && |bWindow| == 8 && OddMultiples(c.group, bWindow, c.base)
    ensures r == 0
  {
    hide OddMultiples, PublicKey, IsSignature, Valid, Abelian;
    var secretKey, publicKey := KeyPair(c, seed);
    assert secretKey[..32] == seed && secretKey[32..] == publicKey;
    var signature := Sign(c, secretKey, message);
    SignedIsValid(c, seed, message, signature);
    r := Check(c, bWindow, signature, publicKey, message);
  }

  lemma {:induction false} SignedIsValid<G(!new)>(c: Curve<G>, seed: seq<u8>, message: seq<u8>, signature: seq<u8>)
    requires Sound(c) && |signature| == 64 && IsSignature(c, seed, PublicKey(c, seed), message, signature)
    ensures Valid(c, signature, PublicKey(c, seed), message)
  {
    hide BytesValue, HashModL, Scale, Abelian, Combined, SecretScalar, NoncePrefix;
    var g, b, publicKey := c.group, c.base, PublicKey(c, seed);
    var r, h := HashModL(NoncePrefix(seed) + message), HashModL(signature[..32] + publicKey + message);
    var s, x := BytesValue(signature[32..]), BytesValue(SecretScalar(seed));
    EquationScalar(g, b, h, x, s, r);
    var k := (h * x + r) / ELL;
    assert s - h * x - r == -k * ELL;
    ScaleScale(g, -k, ELL, b);
    ScaleZero(g, -k);
    ScaleZero(g, 8);
  }
}
