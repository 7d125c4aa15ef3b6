/**
  The payload of a native module: a 76-byte header, code, read-only data and initial data, each
  aligned to four bytes.  Building and validating are inverse to each other, and building succeeds
  exactly within the limits.
 */
module NativePayload {
  import opened Common
  import opened Limbs

  /** What a payload is built from */
  datatype Parts = Parts(code: seq<u8>, rodata: seq<u8>, data: seq<u8>, bssSize: int, stackSize: int, entryOffset: int,
                         apiVersion: int, simulationId: int)

  /** "NMV1", version 1, header size 76 */
  const PREFIX: seq<u8> := [0x4E, 0x4D, 0x56, 0x31, 1, 0, 76, 0]

  function Align4(x: int): int {
    (x + 3) / 4 * 4
  }

  // ----- building

  function RodataOffset(p: Parts): int {
    Align4(76 + |p.code|)
  }

  function DataOffset(p: Parts): int {
    Align4(RodataOffset(p) + |p.rodata|)
  }

  function TotalSize(p: Parts): int {
    DataOffset(p) + |p.data|
  }

  /** The header's numbers: total size, offset and size of the three regions, then the rest */
  function HeaderFields(p: Parts): seq<int> {
    [TotalSize(p), 76, |p.code|, RodataOffset(p), |p.rodata|, DataOffset(p), |p.data|,
     p.bssSize, p.stackSize, p.entryOffset, p.apiVersion, p.simulationId, 0]
  }

  function Layout(p: Parts): (b: seq<u8>)
    requires AllU32(HeaderFields(p))
    ensures |b| == TotalSize(p)
  {
    PREFIX + StoreWords(AsWords(HeaderFields(p))) + ZeroBytes(16)
      + p.code + ZeroBytes(RodataOffset(p) - 76 - |p.code|)
      + p.rodata + ZeroBytes(DataOffset(p) - RodataOffset(p) - |p.rodata|)
      + p.data
  }

  // ----- validation

  predicate RegionOk(offset: int, size: int, total: int) {
    offset % 4 == 0 && offset >= 76 && offset <= total && size <= total - offset
  }

  predicate SizesOk(codeSize: int, rodataSize: int, dataSize: int, bssSize: int, stackSize: int, entryOffset: int) {
    && 0 < codeSize <= 4096 && codeSize % 2 == 0
    && rodataSize <= 2048 && dataSize <= 1024 && bssSize <= 1024
    && 0 < stackSize <= 1024 && stackSize % 8 == 0
    && dataSize + bssSize + stackSize <= 1024
    && entryOffset % 2 == 0 && entryOffset < codeSize
  }

  function Validate(b: seq<u8>): Option<Parts> {
    if |b| < 76 then None
    else
      var w := LoadWords(b[8..60]);
      if b[..8] != PREFIX || w[12] != 0 || b[60..76] != ZeroBytes(16) then None
      else if w[0] != |b| || w[0] > 4096 + 2048 + 1024 + 76 then None
      else if w[10] != 1 || (w[11] != 0 && w[11] != 1) || w[1] != 76 then None
      else if !RegionOk(w[1], w[2], w[0]) || !RegionOk(w[3], w[4], w[0]) || !RegionOk(w[5], w[6], w[0]) then None
      else
        var codeEnd, rodataEnd, dataEnd := w[1] as int + w[2] as int, w[3] as int + w[4] as int,
            w[5] as int + w[6] as int;
        if codeEnd > w[3] || rodataEnd > w[5] then None
        else if w[3] != Align4(codeEnd) || w[5] != Align4(rodataEnd) || dataEnd != w[0] then None
        else if b[codeEnd..w[3]] != ZeroBytes(w[3] - codeEnd)
            || b[rodataEnd..w[5]] != ZeroBytes(w[5] - rodataEnd) then None
        else if !SizesOk(w[2], w[4], w[6], w[7], w[8], w[9]) then None
        else Some(Parts(b[76..codeEnd], b[w[3]..rodataEnd], b[w[5]..dataEnd], w[7], w[8], w[9], w[10], w[11]))
  }

  /** Building: the layout, validated before it is handed out; numbers that do not fit are refused */
  method BuildNativePayload(p: Parts) returns (r: Option<seq<u8>>)
    ensures r == Built(p)
  {
    hide Validate, StoreWords;
    var w := HeaderFields(p);
    if !AllU32(w) {
      return None;
    }
    var payload := PREFIX + StoreWords(AsWords(w)) + ZeroBytes(16);
    payload := payload + p.code;
    payload := payload + ZeroBytes(RodataOffset(p) - |payload|);
    payload := payload + p.rodata;
    payload := payload + ZeroBytes(DataOffset(p) - |payload|);
    payload := payload + p.data;
    assert payload == Layout(p);
    r := if Validate(payload).Some? then Some(payload) else None;
  }

  function Built(p: Parts): Option<seq<u8>> {
    if AllU32(HeaderFields(p)) && Validate(Layout(p)).Some? then Some(Layout(p)) else None
  }

  /** The limits on what can be built */
  predicate Buildable(p: Parts) {
    && SizesOk(|p.code|, |p.rodata|, |p.data|, p.bssSize, p.stackSize, p.entryOffset)
    && p.bssSize >= 0 && p.entryOffset >= 0
    && p.apiVersion == 1 && (p.simulationId == 0 || p.simulationId == 1)
  }

  // ----- the two are inverse

  /** The fields of a layout, read back */
  lemma {:induction false} LayoutFields(p: Parts)
    requires AllU32(HeaderFields(p))
    ensures var b := Layout(p);
            && |b| >= 76 && b[..8] == PREFIX && LoadWords(b[8..60]) == HeaderFields(p) && b[60..76] == ZeroBytes(16)
            && b[76..76 + |p.code|] == p.code
            && b[76 + |p.code|..RodataOffset(p)] == ZeroBytes(RodataOffset(p) - 76 - |p.code|)
            && b[RodataOffset(p)..RodataOffset(p) + |p.rodata|] == p.rodata
            && b[RodataOffset(p) + |p.rodata|..DataOffset(p)] == ZeroBytes(DataOffset(p) - RodataOffset(p) - |p.rodata|)
            && b[DataOffset(p)..TotalSize(p)] == p.data
  {
    hide LoadWords, StoreWords, ZeroBytes;
    WordsRoundTrip(AsWords(HeaderFields(p)));
    assert Layout(p)[8..60] == StoreWords(AsWords(HeaderFields(p)));
  }

  /** Building succeeds exactly within the limits: the total size limit never gets in the way. */
  lemma {:induction false} BuiltExactly(p: Parts)
    ensures Built(p).Some? <==> Buildable(p)
    ensures Buildable(p) ==> Validate(Built(p).value) == Some(p)
  {
    hide LoadWords, StoreWords, ZeroBytes, Layout;
    if AllU32(HeaderFields(p)) {
      LayoutFields(p);
      var w := HeaderFields(p);
      assert w[7] == p.bssSize && w[9] == p.entryOffset;
    }
  }

  /** What validation has established about the bytes */
  lemma {:induction false} ValidatedFields(b: seq<u8>)
    requires Validate(b).Some?
    ensures var p := Validate(b).value;
            && LoadWords(b[8..60]) == HeaderFields(p) && b[..8] == PREFIX && b[60..76] == ZeroBytes(16)
            && 76 + |p.code| <= RodataOffset(p) && RodataOffset(p) + |p.rodata| <= DataOffset(p) <= |b|
            && b[76..76 + |p.code|] == p.code
            && b[76 + |p.code|..RodataOffset(p)] == ZeroBytes(RodataOffset(p) - 76 - |p.code|)
            && b[RodataOffset(p)..RodataOffset(p) + |p.rodata|] == p.rodata
            && b[RodataOffset(p) + |p.rodata|..DataOffset(p)] == ZeroBytes(DataOffset(p) - RodataOffset(p) - |p.rodata|)
            && b[DataOffset(p)..] == p.data
  {
    hide LoadWords, ZeroBytes;
    var p := Validate(b).value;
    var w := LoadWords(b[8..60]);
    assert |p.code| == w[2] && RodataOffset(p) == w[3] && |p.rodata| == w[4] && DataOffset(p) == w[5]
        && |p.data| == w[6];
    assert w == HeaderFields(p);
    assert b[DataOffset(p)..] == b[w[5]..w[0]];
  }

  lemma {:induction false} Split5(b: seq<u8>, i: nat, j: nat, k: nat, l: nat)
    requires 76 <= i <= j <= k <= l <= |b|
    ensures b == b[..8] + b[8..60] + b[60..76] + b[76..i] + b[i..j] + b[j..k] + b[k..l] + b[l..]
  {
    assert b[..76] == b[..8] + b[8..60] + b[60..76];
    assert b[..k] == b[..76] + b[76..i] + b[i..j] + b[j..k];
    assert b == b[..k] + b[k..l] + b[l..];
  }

  /** An accepted payload is what building its parts gives. */
  lemma {:induction false} ValidatedIsBuilt(b: seq<u8>)
    requires Validate(b).Some?
    ensures Built(Validate(b).value) == Some(b)
  {
    hide LoadWords, StoreWords, ZeroBytes, Validate, RodataOffset, DataOffset;
    var p := Validate(b).value;
    ValidatedFields(b);
    BytesRoundTrip(b[8..60]);
    Split5(b, 76 + |p.code|, RodataOffset(p), RodataOffset(p) + |p.rodata|, DataOffset(p));
    assert Layout(p) == b;
  }
}
