/**
  The SHA-512 context, which buffers bytes across calls, against the padded hash of the whole
  message (FIPS 180-4 sections 5.1.2 and 6.4).
 */
module Sha512Stream {
  import opened Common
  import opened Limbs
  import opened Sha512

  type byte = bv8

  const TWO_64: int := 0x1_0000_0000_0000_0000
  const TWO_128: int := 0x1_0000_0000_0000_0000_0000_0000_0000_0000

  // ----- bytes and words

  /** x << (8 * (7 - k)): byte k of a big-endian word */
  function Place(x: byte, k: nat): bv64
    requires k < 8
  {
    match k
    case 0 => x as bv64 << 56
    case 1 => x as bv64 << 48
    case 2 => x as bv64 << 40
    case 3 => x as bv64 << 32
    case 4 => x as bv64 << 24
    case 5 => x as bv64 << 16
    case 6 => x as bv64 << 8
    case 7 => x as bv64
  }

  function Or(x: bv64, y: bv64): bv64 {
    x | y
  }

  /** The first n bytes of a big-endian word, or-ed together */
  function LoadFirst(b: seq<byte>, n: nat): bv64
    requires |b| == 8 && n <= 8
  {
    if n == 0 then 0 else Or(LoadFirst(b, n - 1), Place(b[n - 1], n - 1))
  }

  function Load64(b: seq<byte>): bv64
    requires |b| == 8
  {
    LoadFirst(b, 8)
  }

  function Store64(w: bv64): (b: seq<byte>)
    ensures |b| == 8
  {
    [(w >> 56) as bv8, ((w >> 48) & 0xFF) as bv8, ((w >> 40) & 0xFF) as bv8, ((w >> 32) & 0xFF) as bv8,
     ((w >> 24) & 0xFF) as bv8, ((w >> 16) & 0xFF) as bv8, ((w >> 8) & 0xFF) as bv8, (w & 0xFF) as bv8]
  }

  lemma {:induction false} StoredByte0(w: bv64)
    ensures Or(w & 0x0000000000000000, Place(Store64(w)[0], 0)) == w & 0xff00000000000000
  {
  }

  lemma {:induction false} StoredByte1(w: bv64)
    ensures Or(w & 0xff00000000000000, Place(Store64(w)[1], 1)) == w & 0xffff000000000000
  {
  }

  lemma {:induction false} StoredByte2(w: bv64)
    ensures Or(w & 0xffff000000000000, Place(Store64(w)[2], 2)) == w & 0xffffff0000000000
  {
  }

  lemma {:induction false} StoredByte3(w: bv64)
    ensures Or(w & 0xffffff0000000000, Place(Store64(w)[3], 3)) == w & 0xffffffff00000000
  {
  }

  lemma {:induction false} StoredByte4(w: bv64)
    ensures Or(w & 0xffffffff00000000, Place(Store64(w)[4], 4)) == w & 0xffffffffff000000
  {
  }

  lemma {:induction false} StoredByte5(w: bv64)
    ensures Or(w & 0xffffffffff000000, Place(Store64(w)[5], 5)) == w & 0xffffffffffff0000
  {
  }

  lemma {:induction false} StoredByte6(w: bv64)
    ensures Or(w & 0xffffffffffff0000, Place(Store64(w)[6], 6)) == w & 0xffffffffffffff00
  {
  }

  lemma {:induction false} StoredByte7(w: bv64)
    ensures Or(w & 0xffffffffffffff00, Place(Store64(w)[7], 7)) == w & 0xffffffffffffffff
  {
  }

  /** Storing a word and loading it back gives the word. */
  lemma {:induction false} LoadStore(w: bv64)
    ensures Load64(Store64(w)) == w
  {
    hide Or, Place, Store64;
    var b := Store64(w);
    assert LoadFirst(b, 0) == w & 0x0000000000000000;
    StoredByte0(w);
    assert LoadFirst(b, 1) == w & 0xff00000000000000;
    StoredByte1(w);
    assert LoadFirst(b, 2) == w & 0xffff000000000000;
    StoredByte2(w);
    assert LoadFirst(b, 3) == w & 0xffffff0000000000;
    StoredByte3(w);
    assert LoadFirst(b, 4) == w & 0xffffffff00000000;
    StoredByte4(w);
    assert LoadFirst(b, 5) == w & 0xffffffffff000000;
    StoredByte5(w);
    assert LoadFirst(b, 6) == w & 0xffffffffffff0000;
    StoredByte6(w);
    assert LoadFirst(b, 7) == w & 0xffffffffffffff00;
    StoredByte7(w);
    assert LoadFirst(b, 8) == w & 0xffffffffffffffff;
  }

  lemma {:induction false} PlaceZero(k: nat)
    requires k < 8
    ensures Place(0, k) == 0
  {
  }

  lemma {:induction false} OrSwapRaw(a: bv64, x: bv64, p: bv64)
    ensures Or(a | x, p) == Or(a | p, x)
  {
  }

  lemma {:induction false} OrZero(a: bv64)
    ensures Or(a, 0) == a
  {
  }

  lemma {:induction false} OrSwap(a: bv64, x: bv64, p: bv64)
    ensures Or(Or(a, x), p) == Or(Or(a, p), x)
  {
    OrSwapRaw(a, x, p);
    assert Or(a, x) == a | x;
    assert Or(a, p) == a | p;
    hide Or;
  }

  /** Or-ing a byte into its place sets it, provided that the place was empty. */
  lemma {:induction false} SetByte(b: seq<byte>, k: nat, x: byte, n: nat)
    requires |b| == 8 && k < 8 && b[k] == 0 && n <= 8
    ensures LoadFirst(b[k := x], n) == if n <= k then LoadFirst(b, n) else Or(LoadFirst(b, n), Place(x, k))
  {
    hide Place, Or;
    if n > 0 {
      SetByte(b, k, x, n - 1);
      PlaceZero(k);
      OrZero(LoadFirst(b, n - 1));
      OrSwap(LoadFirst(b, n - 1), Place(x, k), Place(b[n - 1], n - 1));
    }
  }

  function Zeros(n: nat): (z: seq<byte>)
    ensures |z| == n
  {
    seq(n, i => 0)
  }

  /** A partial block, filled up with zeros */
  function Filled(b: seq<byte>): (r: seq<byte>)
    requires |b| <= 128
    ensures |r| == 128
  {
    b + Zeros(128 - |b|)
  }

  function Words(b: seq<byte>): block
    requires |b| == 128
  {
    seq(16, i requires 0 <= i < 16 => Load64(b[8 * i..8 * i + 8]))
  }

  // ----- specification

  const IV: chain :=
    [0x6a09e667f3bcc908, 0xbb67ae8584caa73b, 0x3c6ef372fe94f82b, 0xa54ff53a5f1d36f1,
     0x510e527fade682d1, 0x9b05688c2b3e6c1f, 0x1f83d9abfb41bd6b, 0x5be0cd19137e2179]

  /** The chaining value after all blocks of m */
  function HashBlocks(m: seq<byte>): chain
    requires |m| % 128 == 0
  {
    if m == [] then IV else Compressed(HashBlocks(m[..|m| - 128]), Words(m[|m| - 128..]))
  }

  function ToWord(x: u64): bv64 {
    x as bv64
  }

  /** A length in bits as two 64-bit words, modulo 2^128 */
  function LengthWords(bits: nat): (bv64, bv64) {
    (ToWord(bits / TWO_64 % TWO_64), ToWord(bits % TWO_64))
  }

  /** The message, a one bit, as few zeros as possible, and the length in 128 bits */
  function Pad(m: seq<byte>): (p: seq<byte>)
    ensures |p| % 128 == 0
  {
    PadLength(|m|);
    var (hi, lo) := LengthWords(8 * |m|);
    m + [0x80] + Zeros((111 - |m|) % 128) + Store64(hi) + Store64(lo)
  }

  lemma {:induction false} PadLength(n: nat)
    ensures (n + 1 + (111 - n) % 128 + 16) % 128 == 0
  {
  }

  function StoreChain(h: chain): (b: seq<byte>)
    ensures |b| == 64
  {
    Store64(h[0]) + Store64(h[1]) + Store64(h[2]) + Store64(h[3]) + Store64(h[4]) + Store64(h[5]) + Store64(h[6])
        + Store64(h[7])
  }

  function Digest(m: seq<byte>): (d: seq<byte>)
    ensures |d| == 64
  {
    StoreChain(HashBlocks(Pad(m)))
  }

  // ----- buffers

  lemma {:induction false} WordsAt(b: seq<byte>, i: nat)
    requires |b| == 128 && i < 16
    ensures Words(b)[i] == Load64(b[8 * i..8 * i + 8])
  {
  }

  lemma {:induction false} WordsSetByte(b: seq<byte>, w: nat, k: nat, x: byte)
    requires |b| == 128 && w < 16 && k < 8 && b[8 * w + k] == 0
    ensures Words(b[8 * w + k := x]) == Words(b)[w := Or(Words(b)[w], Place(x, k))]
  {
    var c := b[8 * w + k := x];
    var old8 := b[8 * w..8 * w + 8];
    SetByte(old8, k, x, 8);
    assert c[8 * w..8 * w + 8] == old8[k := x];
    WordsAt(b, w);
    WordsAt(c, w);
    hide Load64, Place;
    forall i | 0 <= i < 16 && i != w ensures Words(c)[i] == Words(b)[i] {
      assert c[8 * i..8 * i + 8] == b[8 * i..8 * i + 8];
    }
  }

  lemma {:induction false} FilledPush(b: seq<byte>, x: byte)
    requires |b| < 128
    ensures Filled(b)[|b|] == 0
    ensures Filled(b + [x]) == Filled(b)[|b| := x]
  {
  }

  /** Overwriting words past a whole number of words appends eight bytes at a time. */
  lemma {:induction false} WordsAppend(b: seq<byte>, c: seq<byte>)
    requires |b| % 8 == 0 && |c| == 8 && |b| + 8 <= 128
    ensures Words(Filled(b + c)) == Words(Filled(b))[|b| / 8 := Load64(c)]
  {
    hide Load64;
    var p, q, w := Filled(b), Filled(b + c), |b| / 8;
    assert q[8 * w..8 * w + 8] == c;
    forall i | 0 <= i < 16 && i != w ensures Words(q)[i] == Words(p)[i] {
      assert q[8 * i..8 * i + 8] == p[8 * i..8 * i + 8];
    }
  }

  lemma {:induction false} FilledFull(b: seq<byte>)
    requires |b| == 128
    ensures Filled(b) == b
  {
  }

  lemma {:induction false} EmptyWords()
    ensures Words(Filled([])) == seq(16, i => 0)
  {
    forall i | 0 <= i < 16 ensures Words(Filled([]))[i] == 0 {
      assert Filled([])[8 * i..8 * i + 8] == [0, 0, 0, 0, 0, 0, 0, 0];
      assert Load64([0, 0, 0, 0, 0, 0, 0, 0]) == 0;
    }
  }

  lemma {:induction false} ZeroWords()
    ensures forall i :: 0 <= i < 16 ==> Words(Zeros(128))[i] == 0
  {
    EmptyWords();
    assert Filled([]) == Zeros(128);
    hide Words;
  }

  // ----- splitting a message at a block boundary

  lemma {:induction false} HashOneMore(m: seq<byte>, n: nat)
    requires n + 128 <= |m| && n % 128 == 0
    ensures HashBlocks(m[..n + 128]) == Compressed(HashBlocks(m[..n]), Words(m[n..n + 128]))
  {
    var p := m[..n + 128];
    assert p[..|p| - 128] == m[..n] && p[|p| - 128..] == m[n..n + 128];
    hide Compressed, Words;
  }

  /** A 128-bit count kept in two words, modulo 2^128 */
  ghost predicate Counts(hi: u64, lo: u64, n: int) {
    exists k: int :: hi * TWO_64 + lo == n + TWO_128 * k
  }

  class Ctx {
    var hash: chain
    const input: array<bv64>
    var sizeHi: u64
    var sizeLo: u64
    var inputIdx: nat

    /** The message m has been absorbed: its whole blocks are in hash and size, the rest of it,
        with nothing after it, in input. */
    ghost predicate Holds(m: seq<byte>)
      reads this, input
    {
      && input.Length == 16
      && inputIdx <= 128 && inputIdx <= |m| && (|m| - inputIdx) % 128 == 0
      && hash == HashBlocks(m[..|m| - inputIdx])
      && input[..] == Words(Filled(m[|m| - inputIdx..]))
      && Counts(sizeHi, sizeLo, 8 * (|m| - inputIdx))
    }

    constructor ()
      ensures Holds([]) && inputIdx == 0 && fresh(input)
    {
      hash := IV;
      sizeHi, sizeLo, inputIdx := 0, 0, 0;
      input := new bv64[16](_ => 0);
      new;
      EmptyWords();
      assert input[..] == seq(16, i => 0);
      ghost var m: seq<byte> := [];
      assert m[..0] == [] && m[0..] == [];
      assert sizeHi * TWO_64 + sizeLo == 0 + TWO_128 * 0;
    }

    /** Adds y to the 128-bit size. */
    method Incr(y: u64, ghost n: int)
      requires Counts(sizeHi, sizeLo, n)
      modifies this`sizeHi, this`sizeLo
      ensures Counts(sizeHi, sizeLo, n + y)
    {
      ghost var k: int :| sizeHi * TWO_64 + sizeLo == n + TWO_128 * k;
      var sum := sizeLo + y as int;
      sizeLo := if sum >= 0x1_0000_0000_0000_0000 then sum - 0x1_0000_0000_0000_0000 else sum;
      if sizeLo < y {
        if sizeHi == 0xFFFF_FFFF_FFFF_FFFF {
          sizeHi := 0;
          k := k - 1;
        } else {
          sizeHi := sizeHi + 1;
        }
      }
      assert sizeHi * TWO_64 + sizeLo == n + y + TWO_128 * k;
    }

    /** Writes one byte at the current position. */
    method SetInput(x: byte, ghost b: seq<byte>)
      requires input.Length == 16 && |b| == inputIdx < 128 && input[..] == Words(Filled(b))
      modifies input
      ensures input[..] == Words(Filled(b + [x]))
    {
      hide Words, Place, Or;
      var w, k := inputIdx / 8, inputIdx % 8;
      FilledPush(b, x);
      WordsSetByte(Filled(b), w, k, x);
      ghost var was := input[..];
      input[w] := Or(input[w], Place(x, k));
      assert input[..] == was[w := Or(was[w], Place(x, k))];
    }

    /** Absorbs one byte. */
    method PutByte(x: byte, ghost m: seq<byte>)
      requires Holds(m) && inputIdx < 128
      modifies this`inputIdx, input
      ensures Holds(m + [x]) && inputIdx == old(inputIdx) + 1
    {
      hide Words, HashBlocks, Counts;
      ghost var n := |m| - inputIdx;
      SetInput(x, m[n..]);
      inputIdx := inputIdx + 1;
      assert (m + [x])[..n] == m[..n] && (m + [x])[n..] == m[n..] + [x];
    }

    /** Absorbs whole words, from a word boundary on. */
    method PutWords(chunk: seq<byte>, ghost m: seq<byte>)
      requires Holds(m) && inputIdx % 8 == 0 && |chunk| % 8 == 0 && inputIdx + |chunk| <= 128
      modifies this`inputIdx, input
      ensures Holds(m + chunk) && inputIdx == old(inputIdx) + |chunk|
    {
      hide Words, HashBlocks, Counts, Load64;
      ghost var n := |m| - inputIdx;
      var start := inputIdx / 8;
      assert m[n..] + chunk[..0] == m[n..];
      for i := 0 to |chunk| / 8
        invariant inputIdx == old(inputIdx)
        invariant input[..] == Words(Filled(m[n..] + chunk[..8 * i]))
      {
        WordsAppend(m[n..] + chunk[..8 * i], chunk[8 * i..8 * i + 8]);
        ghost var was := input[..];
        input[start + i] := Load64(chunk[8 * i..8 * i + 8]);
        assert input[..] == was[start + i := Load64(chunk[8 * i..8 * i + 8])];
        assert m[n..] + chunk[..8 * i] + chunk[8 * i..8 * i + 8] == m[n..] + chunk[..8 * (i + 1)];
      }
      inputIdx := inputIdx + |chunk|;
      assert chunk[..8 * (|chunk| / 8)] == chunk;
      assert (m + chunk)[..n] == m[..n] && (m + chunk)[n..] == m[n..] + chunk;
    }

    /** Compresses a full buffer and empties it. */
    method FlushBlock(ghost m: seq<byte>)
      requires Holds(m) && inputIdx == 128
      modifies this`hash, this`sizeHi, this`sizeLo, this`inputIdx, input
      ensures Holds(m) && inputIdx == 0
    {
      hide Words, HashBlocks, Counts, Compressed, Filled;
      ghost var n := |m| - 128;
      FilledFull(m[n..]);
      HashOneMore(m, n);
      assert m[..n + 128] == m && m[n..n + 128] == m[n..];
      Incr(1024, 8 * n);
      hash := Compress(hash, input);
      inputIdx := 0;
      ZeroInput(16);
      EmptyWords();
      assert input[..] == seq(16, i => 0);
      assert m[..|m|] == m && m[|m|..] == [];
    }

    method ZeroInput(n: nat)
      requires input.Length == 16 && n <= 16
      modifies input
      ensures forall i :: 0 <= i < n ==> input[i] == 0
      ensures forall i :: n <= i < 16 ==> input[i] == old(input[i])
    {
      for i := 0 to n
        invariant forall j :: 0 <= j < i ==> input[j] == 0
        invariant forall j :: i <= j < 16 ==> input[j] == old(input[j])
      {
        input[i] := 0;
      }
    }

    /** Absorbs a message of any length: bytes up to a word boundary, words up to a block boundary,
        whole blocks, then the words and bytes that are left. */
    method Update(message: seq<byte>, ghost m: seq<byte>)
      requires Holds(m) && inputIdx < 128
      modifies this`hash, this`sizeHi, this`sizeLo, this`inputIdx, input
      ensures Holds(m + message) && inputIdx < 128
    {
      hide Holds;
      if |message| == 0 {
        assert m + message == m;
        return;
      }
      var at := AlignToWord(message, m);
      at := AlignToBlock(message, at, m);
      at := PutBlocks(message, at, m);
      PutRest(message, at, m);
      assert message[..|message|] == message;
    }

    method AlignToWord(message: seq<byte>, ghost m: seq<byte>) returns (at: nat)
      requires Holds(m) && inputIdx < 128
      modifies this`inputIdx, input
      ensures at <= |message| && Holds(m + message[..at]) && inputIdx <= 128
      ensures inputIdx % 8 == 0 || (at == |message| && inputIdx < 128)
    {
      hide Holds;
      at := 0;
      assert m + message[..0] == m;
      if inputIdx % 8 != 0 {
        var gap := 8 - inputIdx % 8;
        var nb := if gap <= |message| then gap else |message|;
        for i := 0 to nb
          invariant inputIdx == old(inputIdx) + i
          invariant Holds(m + message[..i])
        {
          PutByte(message[i], m + message[..i]);
          assert m + message[..i] + [message[i]] == m + message[..i + 1];
        }
        at := nb;
      }
    }

    method AlignToBlock(message: seq<byte>, start: nat, ghost m: seq<byte>) returns (at: nat)
      requires start <= |message| && Holds(m + message[..start]) && inputIdx <= 128
      requires inputIdx % 8 == 0 || (start == |message| && inputIdx < 128)
      modifies this`hash, this`sizeHi, this`sizeLo, this`inputIdx, input
      ensures at <= |message| && Holds(m + message[..at])
      ensures inputIdx == 0 || (|message| - at < 8 && inputIdx + (|message| - at) < 128)
    {
      hide Holds;
      at := start;
      if inputIdx % 128 != 0 {
        var gap, left := 128 - inputIdx, |message| - at;
        var nb := (if gap <= left then gap else left) / 8 * 8;
        if nb > 0 {
          PutWords(message[at..at + nb], m + message[..at]);
          assert m + message[..at] + message[at..at + nb] == m + message[..at + nb];
          at := at + nb;
        }
      }
      if inputIdx == 128 {
        FlushBlock(m + message[..at]);
      }
    }

    method PutBlocks(message: seq<byte>, start: nat, ghost m: seq<byte>) returns (at: nat)
      requires start <= |message| && Holds(m + message[..start])
      requires inputIdx == 0 || (|message| - start < 8 && inputIdx + (|message| - start) < 128)
      modifies this`hash, this`sizeHi, this`sizeLo, this`inputIdx, input
      ensures at <= |message| && Holds(m + message[..at])
      ensures inputIdx + (|message| - at) < 128 && (inputIdx == 0 || |message| - at < 8)
    {
      hide Holds;
      at := start;
      for i := 0 to (|message| - start) / 128
        invariant at == start + 128 * i && at <= |message|
        invariant Holds(m + message[..at])
        invariant inputIdx == 0 || (i == 0 && inputIdx == old(inputIdx))
      {
        PutWords(message[at..at + 128], m + message[..at]);
        assert m + message[..at] + message[at..at + 128] == m + message[..at + 128];
        at := at + 128;
        FlushBlock(m + message[..at]);
      }
    }

    method PutRest(message: seq<byte>, start: nat, ghost m: seq<byte>)
      requires start <= |message| && Holds(m + message[..start])
      requires inputIdx + (|message| - start) < 128 && (inputIdx == 0 || |message| - start < 8)
      modifies this`inputIdx, input
      ensures Holds(m + message[..|message|]) && inputIdx < 128
    {
      hide Holds;
      var words := (|message| - start) / 8 * 8;
      if words > 0 {
        PutWords(message[start..start + words], m + message[..start]);
      }
      assert m + message[..start] + message[start..start + words] == m + message[..start + words];
      for at := start + words to |message|
        invariant Holds(m + message[..at])
        invariant inputIdx + (|message| - at) < 128
      {
        PutByte(message[at], m + message[..at]);
        assert m + message[..at] + [message[at]] == m + message[..at + 1];
      }
    }

    method StoreLength()
      requires input.Length == 16
      modifies input
      ensures input[..] == old(input[..])[14 := ToWord(sizeHi)][15 := ToWord(sizeLo)]
    {
      hide ToWord;
      input[14] := ToWord(sizeHi);
      input[15] := ToWord(sizeLo);
    }

    /** Pads, compresses the last one or two blocks and returns the digest of all that was absorbed. */
    method Final(ghost m: seq<byte>) returns (digest: seq<byte>)
      requires Holds(m) && inputIdx < 128
      modifies this`hash, this`sizeHi, this`sizeLo, input
      ensures digest == Digest(m)
    {
      hide HashBlocks, Words, Counts, Compressed, StoreChain, LengthWords, ToWord;
      ghost var n := |m| - inputIdx;
      ghost var rest := m[n..];
      if inputIdx == 0 {
        ZeroInput(16);
        EmptyWords();
        assert rest == [] && input[..] == seq(16, i => 0);
      }
      SetInput(0x80, rest);
      Incr(inputIdx * 8, 8 * n);
      CountWords(sizeHi, sizeLo, 8 * |m|);
      ghost var len := LengthWords(8 * |m|);
      if inputIdx > 111 {
        hash := Compress(hash, input);
        ZeroInput(14);
        LastTwoBlocks(m, n);
        ZeroWords();
        SetLength(Zeros(128), input[..], len);
      } else {
        LastBlock(m, n);
        SetLength(Filled(rest + [0x80]), input[..], len);
      }
      StoreLength();
      hash := Compress(hash, input);
      assert hash == HashBlocks(Pad(m));
      digest := StoreChain(hash);
    }
  }

  lemma {:induction false} CountInts(hi: u64, lo: u64, n: nat, k: int)
    requires hi * TWO_64 + lo == n + TWO_128 * k
    ensures n % TWO_64 == lo && n / TWO_64 % TWO_64 == hi
  {
    var q := hi - 0x1_0000_0000_0000_0000 * k;
    assert n == lo + 0x1_0000_0000_0000_0000 * q;
    assert n / TWO_64 == q;
  }

  lemma {:induction false} CountWords(hi: u64, lo: u64, n: nat)
    requires Counts(hi, lo, n)
    ensures LengthWords(n) == (ToWord(hi), ToWord(lo))
  {
    var k: int :| hi * TWO_64 + lo == n + TWO_128 * k;
    CountInts(hi, lo, n, k);
  }

  /** The length goes into the last two words. */
  lemma {:induction false} SetLength(b: seq<byte>, w: seq<bv64>, len: (bv64, bv64))
    requires |b| == 128 && |w| == 16 && forall i :: 0 <= i < 14 ==> w[i] == Words(b)[i]
    ensures w[14 := len.0][15 := len.1] == Words(b[..112] + Store64(len.0) + Store64(len.1))
  {
    LoadStore(len.0);
    LoadStore(len.1);
    hide Load64, Store64;
    var c := b[..112] + Store64(len.0) + Store64(len.1);
    assert c[112..120] == Store64(len.0) && c[120..128] == Store64(len.1);
    WordsAt(c, 14);
    WordsAt(c, 15);
    forall i | 0 <= i < 14 ensures Words(c)[i] == w[i] {
      assert c[8 * i..8 * i + 8] == b[8 * i..8 * i + 8];
      WordsAt(c, i);
      WordsAt(b, i);
    }
  }

  /** With room for the length, padding completes the current block. */
  lemma {:induction false} LastBlock(m: seq<byte>, n: nat)
    requires n <= |m| && n % 128 == 0 && |m| - n <= 111
    ensures var len := LengthWords(8 * |m|);
            HashBlocks(Pad(m)) ==
            Compressed(HashBlocks(m[..n]), Words(Filled(m[n..] + [0x80])[..112] + Store64(len.0) + Store64(len.1)))
  {
    hide HashBlocks, Words, Compressed, LengthWords, Store64;
    var len, p := LengthWords(8 * |m|), Pad(m);
    assert (111 - |m|) % 128 == 111 - (|m| - n);
    assert |p| == n + 128;
    assert p[n..n + 128] == Filled(m[n..] + [0x80])[..112] + Store64(len.0) + Store64(len.1);
    assert p[..n] == m[..n] && p[..n + 128] == p;
    HashOneMore(p, n);
  }

  /** Without room, padding completes the current block and adds one more. */
  lemma {:induction false} LastTwoBlocks(m: seq<byte>, n: nat)
    requires n <= |m| && n % 128 == 0 && 111 < |m| - n < 128
    ensures var len := LengthWords(8 * |m|);
            HashBlocks(Pad(m)) ==
            Compressed(Compressed(HashBlocks(m[..n]), Words(Filled(m[n..] + [0x80]))),
                       Words(Zeros(128)[..112] + Store64(len.0) + Store64(len.1)))
  {
    hide HashBlocks, Words, Compressed, LengthWords, Store64;
    var len, p := LengthWords(8 * |m|), Pad(m);
    assert (111 - |m|) % 128 == 239 - (|m| - n);
    assert |p| == n + 256;
    assert p[n..n + 128] == Filled(m[n..] + [0x80]);
    assert p[n + 128..n + 256] == Zeros(128)[..112] + Store64(len.0) + Store64(len.1);
    assert p[..n] == m[..n] && p[..n + 256] == p;
    HashOneMore(p, n);
    HashOneMore(p, n + 128);
  }

  // ----- whole messages

  /** However a message is cut into updates, the digest is that of the concatenation. */
  method HashParts(parts: seq<seq<byte>>) returns (digest: seq<byte>)
    ensures digest == Digest(Concat(parts))
  {
    var ctx := new Ctx();
    hide Digest, Ctx.Holds, Concat;
    ConcatEmpty(parts);
    for i := 0 to |parts|
      invariant fresh(ctx) && fresh(ctx.input)
      invariant ctx.Holds(Concat(parts[..i])) && ctx.inputIdx < 128
    {
      ctx.Update(parts[i], Concat(parts[..i]));
      ConcatStep(parts, i);
    }
    assert parts[..|parts|] == parts;
    digest := ctx.Final(Concat(parts));
  }
}
