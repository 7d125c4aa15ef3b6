/**
  The signed module package: a 240-byte header, capability words and the payload, with no gaps.
  Accepted packages are canonical, the builder's closing self-check never fails, and the signature
  covers every byte except itself.
 */
module ModulePackage {
  import opened Common
  import opened Limbs

  datatype Header = Header(
    totalSize: int, moduleId: int, moduleVersion: int, minPlatform: int, abiVersion: int, moduleType: int, flags: int,
    codeSize: int, rodataSize: int, dataSize: int, bssSize: int, stackSize: int, entryOffset: int,
    capabilityOffset: int, capabilitySize: int, payloadOffset: int, payloadSize: int,
    payloadHash: seq<u8>, keyId: seq<u8>, crc: int, signature: seq<u8>, reserved: seq<u8>)

  datatype Manifest = Manifest(header: Header, capabilities: seq<u32>)

  /** The cryptographic functions, of which only their sizes and the agreement of signing and
      verifying matter */
  datatype Crypto = Crypto(
    sha512: seq<u8> -> seq<u8>, keyIdOf: seq<u8> -> seq<u8>, crc32: seq<u8> -> u32,
    publicKey: seq<u8> -> seq<u8>, sign: (seq<u8>, seq<u8>) -> seq<u8>, verify: (seq<u8>, seq<u8>, seq<u8>) -> bool)

  ghost predicate Agrees(c: Crypto) {
    && (forall m :: |c.sha512(m)| == 64)
    && (forall k :: |c.keyIdOf(k)| == 16)
    && (forall seed :: |c.publicKey(seed)| == 32)
    && (forall seed, m :: |c.sign(seed, m)| == 64 && c.verify(c.publicKey(seed), m, c.sign(seed, m)))
  }

  /** What a reader demands of a package */
  datatype Policy = Policy(publicKey: Option<seq<u8>>, platform: int, abi: int, minVersion: int,
      supported: Option<set<int>>)

  // ----- the header

  /** "MOD1", format version 1, header size 240 */
  const PREFIX: seq<u8> := [0x4D, 0x4F, 0x44, 0x31, 1, 0, 240, 0]

  predicate FieldsFit(h: Header) {
    && AllU32(Numbers(h))
    && IsU32(h.crc) && |h.payloadHash| == 64 && |h.keyId| == 16 && |h.signature| == 64 && |h.reserved| == 16
  }

  function Numbers(h: Header): (w: seq<int>)
    ensures |w| == 17
  {
    [h.totalSize, h.moduleId, h.moduleVersion, h.minPlatform, h.abiVersion, h.moduleType, h.flags,
     h.codeSize, h.rodataSize, h.dataSize, h.bssSize, h.stackSize, h.entryOffset,
     h.capabilityOffset, h.capabilitySize, h.payloadOffset, h.payloadSize]
  }

  /** The header's bytes, with the checksum and the signature as given */
  function PackWith(h: Header, crc: u32, signature: seq<u8>): (b: seq<u8>)
    requires FieldsFit(h) && |signature| == 64
    ensures |b| == 240
  {
    PREFIX + StoreWords(AsWords(Numbers(h))) + h.payloadHash + h.keyId + Store32(crc) + signature + h.reserved
  }

  function PackHeader(h: Header): (b: seq<u8>)
    requires FieldsFit(h)
    ensures |b| == 240
  {
    PackWith(h, h.crc, h.signature)
  }

  function HeaderForCrc(h: Header): seq<u8>
    requires FieldsFit(h)
  {
    PackWith(h, 0, ZeroBytes(64))
  }

  function HeaderForSignature(h: Header): seq<u8>
    requires FieldsFit(h)
  {
    PackWith(h, h.crc, ZeroBytes(64))
  }

  function Unpack(b: seq<u8>): (h: Header)
    requires |b| >= 240
    ensures FieldsFit(h)
  {
    var w := LoadWords(b[8..76]);
    Header(w[0], w[1], w[2], w[3], w[4], w[5], w[6], w[7], w[8], w[9], w[10], w[11], w[12], w[13], w[14], w[15], w[16],
           b[76..140], b[140..156], Load32(b[156..160]), b[160..224], b[224..240])
  }

  lemma {:induction false} UnpackPack(h: Header, rest: seq<u8>)
    requires FieldsFit(h)
    ensures Unpack(PackHeader(h) + rest) == h && (PackHeader(h) + rest)[..8] == PREFIX
  {
    hide LoadWords, StoreWords, Load32, Store32;
    var b := PackHeader(h) + rest;
    WordsRoundTrip(AsWords(Numbers(h)));
    assert b[8..76] == StoreWords(AsWords(Numbers(h)));
    assert b[156..160] == Store32(h.crc);
    Store32Load32(h.crc, b[156..160]);
    assert b[76..140] == h.payloadHash && b[140..156] == h.keyId && b[160..224] == h.signature
        && b[224..240] == h.reserved;
  }

  lemma {:induction false} PackUnpack(b: seq<u8>)
    requires |b| >= 240 && b[..8] == PREFIX
    ensures PackHeader(Unpack(b)) == b[..240]
    ensures HeaderForSignature(Unpack(b)) == b[..160] + ZeroBytes(64) + b[224..240]
  {
    hide LoadWords, StoreWords, Load32, Store32;
    var h := Unpack(b);
    assert Numbers(h) == LoadWords(b[8..76]);
    BytesRoundTrip(b[8..76]);
    Store32Inverse(b[156..160]);
    assert b[..160] == b[..8] + b[8..76] + b[76..140] + b[140..156] + b[156..160];
    assert b[..240] == b[..160] + b[160..224] + b[224..240];
  }

  // ----- reading

  predicate RegionOk(offset: int, size: int, total: int) {
    240 <= offset <= total && size <= total - offset
  }

  predicate CapabilitiesOk(caps: seq<int>, supported: Option<set<int>>) {
    && |caps| <= 64
    && (forall i :: 0 <= i < |caps| ==> caps[i] != 0 && (supported.Some? ==> caps[i] in supported.value))
    && (forall i, j :: 0 <= i < j < |caps| ==> caps[i] != caps[j])
  }

  predicate IdentityOk(h: Header, size: int, policy: Policy) {
    && h.totalSize == size
    && h.moduleId != 0 && h.moduleVersion != 0 && h.minPlatform != 0 && h.abiVersion != 0
    && (h.moduleType == 1 || h.moduleType == 2) && h.flags == 0 && h.reserved == ZeroBytes(16)
    && h.minPlatform <= policy.platform && h.abiVersion == policy.abi && h.moduleVersion >= policy.minVersion
  }

  predicate LayoutOk(h: Header) {
    && h.capabilityOffset == 240
    && RegionOk(h.capabilityOffset, h.capabilitySize, h.totalSize)
    && RegionOk(h.payloadOffset, h.payloadSize, h.totalSize)
    && h.capabilityOffset + h.capabilitySize == h.payloadOffset && h.payloadOffset + h.payloadSize == h.totalSize
    && h.codeSize <= h.payloadSize && h.entryOffset <= h.codeSize
    && h.capabilitySize % 4 == 0
  }

  function ParsePackage(c: Crypto, blob: seq<u8>, policy: Policy): Option<Manifest> {
    if |blob| < 240 || |blob| > 0x10_0000 then None
    else
      var h := Unpack(blob);
      if blob[..8] != PREFIX || !IdentityOk(h, |blob|, policy) || !LayoutOk(h) then None
      else
        var capBytes, payload := blob[240..h.payloadOffset], blob[h.payloadOffset..];
        var caps := LoadWords(capBytes);
        if !CapabilitiesOk(caps, policy.supported) then None
        else if c.sha512(payload) != h.payloadHash || c.crc32(HeaderForCrc(h)) != h.crc then None
        else if policy.publicKey.Some?
                && (|policy.publicKey.value| != 32 || c.keyIdOf(policy.publicKey.value) != h.keyId
                    || !c.verify(policy.publicKey.value, HeaderForSignature(h) + capBytes + payload, h.signature))
        then None
        else Some(Manifest(h, caps))
  }

  /** The loop that reads the capability words, stopping at the first one that is refused */
  method DecodeCapabilities(bytes: seq<u8>, supported: Option<set<int>>) returns (caps: Option<seq<u32>>)
    ensures |bytes| % 4 != 0 ==> caps == None
    ensures |bytes| % 4 == 0 ==>
      caps == if CapabilitiesOk(LoadWords(bytes), supported) then Some(LoadWords(bytes)) else None
  {
    hide LoadWords, Load32;
    if |bytes| % 4 != 0 {
      return None;
    }
    var count := |bytes| / 4;
    ghost var all := LoadWords(bytes);
    if count > 64 {
      return None;
    }
    var found: seq<u32>, seen: set<int> := [], {};
    while |found| < count
      invariant |found| <= count && found == all[..|found|]
      invariant CapabilitiesOk(found, supported)
      invariant forall x :: x in seen <==> x in found
      decreases count - |found|
    {
      var k := |found|;
      var cap := Load32(bytes[4 * k..]);
      LoadWordsAt(bytes, k);
      if cap == 0 || cap in seen || (supported.Some? && cap !in supported.value) {
        return None;
      }
      found := found + [cap];
      seen := seen + {cap};
    }
    assert all[..count] == all;
    caps := Some(found);
  }

  lemma {:induction false} LoadWordsAt(b: seq<u8>, k: nat)
    requires |b| % 4 == 0 && 4 * k < |b|
    ensures LoadWords(b)[k] == Load32(b[4 * k..])
    decreases k
  {
    hide Load32;
    if k > 0 {
      LoadWordsAt(b[4..], k - 1);
      assert b[4..][4 * (k - 1)..] == b[4 * k..];
    } else {
      assert b[0..] == b;
    }
  }

  /** An accepted package is its re-packed header, its capability words and its payload, without a gap
      or a byte to spare. */
  lemma {:induction false} AcceptedIsCanonical(c: Crypto, blob: seq<u8>, policy: Policy)
    requires ParsePackage(c, blob, policy).Some?
    ensures var m := ParsePackage(c, blob, policy).value;
            && FieldsFit(m.header) && m.header.totalSize == |blob|
            && m.header.payloadOffset == 240 + 4 * |m.capabilities|
            && m.header.payloadOffset + m.header.payloadSize == |blob|
            && blob == PackHeader(m.header) + StoreWords(m.capabilities) + blob[m.header.payloadOffset..]
  {
    hide LoadWords, StoreWords, PackHeader, CapabilitiesOk, HeaderForCrc, HeaderForSignature;
    var h := Unpack(blob);
    PackUnpack(blob);
    BytesRoundTrip(blob[240..h.payloadOffset]);
    assert blob == blob[..240] + blob[240..h.payloadOffset] + blob[h.payloadOffset..];
  }

  /** What is signed is the whole package with the signature itself blanked out. */
  lemma {:induction false} SignatureCoversAll(c: Crypto, blob: seq<u8>, policy: Policy, key: seq<u8>)
    requires policy.publicKey == Some(key) && ParsePackage(c, blob, policy).Some?
    ensures c.verify(key, blob[..160] + ZeroBytes(64) + blob[224..], blob[160..224])
    ensures c.keyIdOf(key) == ParsePackage(c, blob, policy).value.header.keyId
  {
    hide LoadWords, PackHeader, CapabilitiesOk, HeaderForCrc, HeaderForSignature;
    var h := Unpack(blob);
    PackUnpack(blob);
    assert HeaderForSignature(h) + blob[240..h.payloadOffset] + blob[h.payloadOffset..]
        == blob[..160] + ZeroBytes(64) + blob[224..];
  }

  /** No proper prefix of an accepted package is accepted under any policy. */
  lemma {:induction false} PrefixRefused(c: Crypto, blob: seq<u8>, policy: Policy, k: nat, other: Policy)
    requires ParsePackage(c, blob, policy).Some? && k < |blob|
    ensures ParsePackage(c, blob[..k], other).None?
  {
    hide LoadWords, PackHeader, CapabilitiesOk, HeaderForCrc, HeaderForSignature;
    if k >= 240 {
      assert blob[..k][8..76] == blob[8..76];
      assert Unpack(blob[..k]).totalSize == Unpack(blob).totalSize;
    }
  }

  // ----- building

  datatype Request = Request(
    payload: seq<u8>, moduleId: int, version: int, seed: seq<u8>, capabilities: seq<int>, moduleType: int,
    minPlatform: int, abiVersion: int, supported: Option<set<int>>, codeSize: Option<int>, rodataSize: int,
    dataSize: int, bssSize: int, stackSize: int, entryOffset: int)

  predicate NonZeroU32(x: int) {
    IsU32(x) && x != 0
  }

  function CodeSizeOf(r: Request): int {
    if r.codeSize.Some? then r.codeSize.value else |r.payload|
  }

  /** The checks that come before anything is built */
  predicate Acceptable(r: Request) {
    && |r.seed| == 32
    && NonZeroU32(r.moduleId) && NonZeroU32(r.version) && NonZeroU32(r.minPlatform) && NonZeroU32(r.abiVersion)
    && (r.moduleType == 1 || r.moduleType == 2)
    && IsU32(CodeSizeOf(r)) && IsU32(r.rodataSize) && IsU32(r.dataSize) && IsU32(r.bssSize) && IsU32(r.stackSize)
    && IsU32(r.entryOffset) && CodeSizeOf(r) <= |r.payload| && r.entryOffset <= CodeSizeOf(r)
    && (forall i :: 0 <= i < |r.capabilities| ==> NonZeroU32(r.capabilities[i]))
    && CapabilitiesOk(r.capabilities, r.supported)
    && 240 + 4 * |r.capabilities| + |r.payload| <= 0x10_0000
  }

  function CapWords(r: Request): (w: seq<u32>)
    requires Acceptable(r)
    ensures w == r.capabilities
  {
    assert AllU32(r.capabilities);
    AsWords(r.capabilities)
  }

  function Unsigned(c: Crypto, r: Request): Header
    requires Acceptable(r)
  {
    var offset := 240 + 4 * |r.capabilities|;
    Header(offset + |r.payload|, r.moduleId, r.version, r.minPlatform, r.abiVersion, r.moduleType, 0,
           CodeSizeOf(r), r.rodataSize, r.dataSize, r.bssSize, r.stackSize, r.entryOffset,
           240, 4 * |r.capabilities|, offset, |r.payload|,
           c.sha512(r.payload), c.keyIdOf(c.publicKey(r.seed)), 0, ZeroBytes(64), ZeroBytes(16))
  }

  /** The signed header: the checksum is put in first, then the signature over everything */
  function Signed(c: Crypto, r: Request): Header
    requires Acceptable(r) && FieldsFit(Unsigned(c, r))
  {
    var h := Unsigned(c, r);
    var checked := h.(crc := c.crc32(HeaderForCrc(h)));
    checked.(signature := c.sign(r.seed, HeaderForSignature(checked) + StoreWords(CapWords(r)) + r.payload))
  }

  function OwnPolicy(c: Crypto, r: Request): Policy {
    Policy(Some(c.publicKey(r.seed)), r.minPlatform, r.abiVersion, r.version, r.supported)
  }

  /** The package, handed out only if it passes the reader's own check */
  function BuildPackage(c: Crypto, r: Request): Option<seq<u8>> {
    if !Acceptable(r) || !FieldsFit(Unsigned(c, r)) || !FieldsFit(Signed(c, r)) then None
    else
      var package := PackHeader(Signed(c, r)) + StoreWords(CapWords(r)) + r.payload;
      if ParsePackage(c, package, OwnPolicy(c, r)).Some? then Some(package) else None
  }

  lemma {:induction false} SignedFits(c: Crypto, r: Request)
    requires Agrees(c) && Acceptable(r)
    ensures FieldsFit(Unsigned(c, r)) && FieldsFit(Signed(c, r))
    ensures HeaderForCrc(Signed(c, r)) == HeaderForCrc(Unsigned(c, r))
    ensures var h := Unsigned(c, r); var checked := h.(crc := c.crc32(HeaderForCrc(h)));
            HeaderForSignature(Signed(c, r)) == HeaderForSignature(checked)
  {
    hide StoreWords, Store32, CapabilitiesOk;
    var h := Unsigned(c, r);
    assert Numbers(Signed(c, r)) == Numbers(h);
  }

  /** With signing and verifying in agreement, the closing self-check never fails: a package is built
      exactly for acceptable requests, and reading it gives back what was requested. */
  lemma {:induction false} BuildExactly(c: Crypto, r: Request)
    requires Agrees(c)
    ensures BuildPackage(c, r).Some? <==> Acceptable(r)
    ensures Acceptable(r) ==>
      var blob := BuildPackage(c, r).value;
      && FieldsFit(Unsigned(c, r))
      && ParsePackage(c, blob, OwnPolicy(c, r)) == Some(Manifest(Signed(c, r), CapWords(r)))
      && blob[240 + 4 * |r.capabilities|..] == r.payload
  {
    hide LoadWords, StoreWords, PackHeader, CapabilitiesOk, HeaderForCrc, HeaderForSignature, Unpack, FieldsFit;
    if Acceptable(r) {
      SignedFits(c, r);
      var h, words := Signed(c, r), CapWords(r);
      var rest := StoreWords(words) + r.payload;
      var blob := PackHeader(h) + StoreWords(words) + r.payload;
      assert blob == PackHeader(h) + rest;
      UnpackPack(h, rest);
      WordsRoundTrip(words);
      assert blob[240..h.payloadOffset] == StoreWords(words) && blob[h.payloadOffset..] == r.payload;
      assert IdentityOk(h, |blob|, OwnPolicy(c, r)) && LayoutOk(h);
    }
  }
}
