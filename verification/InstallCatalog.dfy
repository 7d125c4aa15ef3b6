/**
  The append-only catalog of the module installer: its 128-byte records, and what recovery
  makes of any byte string found in flash.
 */
module InstallCatalog {
  import opened Common
  import opened Limbs

  const KIND_STATE: int := 1
  const KIND_REVOCATION: int := 2
  const SLOT_A: int := 0
  const SLOT_B: int := 1
  const SLOT_NONE: int := 0xFFFFFFFF

  datatype State = Empty | Receiving | Verified | Pending | Active | Confirmed | Rejected | Quarantined

  datatype Record = Record(
    kind: int, sequence: int, moduleId: int, moduleVersion: int, minVersion: int, state: State,
    activeSlot: int, candidateSlot: int, failures: int, result: int, signer: seq<u8>, fingerprint: seq<u8>)

  type Checksum = seq<u8> -> u32

  // ----- the record codec

  function StateNumber(s: State): (n: int)
    ensures 0 <= n < 8
  {
    match s
    case Empty => 0
    case Receiving => 1
    case Verified => 2
    case Pending => 3
    case Active => 4
    case Confirmed => 5
    case Rejected => 6
    case Quarantined => 7
  }

  function StateOf(n: int): (s: Option<State>)
    ensures s.Some? <==> 0 <= n < 8
    ensures s.Some? ==> StateNumber(s.value) == n
  {
    if n == 0 then Some(Empty) else if n == 1 then Some(Receiving) else if n == 2 then Some(Verified)
    else if n == 3 then Some(Pending) else if n == 4 then Some(Active) else if n == 5 then Some(Confirmed)
    else if n == 6 then Some(Rejected) else if n == 7 then Some(Quarantined) else None
  }

  predicate IsSlot(x: int) {
    x == SLOT_A || x == SLOT_B || x == SLOT_NONE
  }

  /** The slots that hold packages */
  predicate IsSlotKey(x: int) {
    x == SLOT_A || x == SLOT_B
  }

  /** The conditions under which a record is written, and under which its bytes are accepted */
  predicate WellFormed(r: Record) {
    && (r.kind == KIND_STATE || r.kind == KIND_REVOCATION)
    && r.sequence != 0 && |r.signer| == 16 && |r.fingerprint| == 32
    && IsU32(r.sequence) && IsU32(r.moduleId) && IsU32(r.moduleVersion) && IsU32(r.minVersion)
    && IsSlot(r.activeSlot) && IsSlot(r.candidateSlot) && IsU32(r.failures) && IsU32(r.result)
    && (r.kind == KIND_STATE ==> r.moduleId != 0 && r.moduleVersion != 0)
    && (r.kind == KIND_REVOCATION ==>
          && r.signer != ZeroBytes(16) && r.moduleId == 0 && r.moduleVersion == 0 && r.minVersion == 0
          && r.state == Empty
          && r.activeSlot == SLOT_NONE && r.candidateSlot == SLOT_NONE && r.failures == 0 && r.result == 0
          && r.fingerprint == ZeroBytes(32))
  }

  /** "IC70", then version 1 in 16 bits */
  const PREFIX: seq<u8> := [0x49, 0x43, 0x37, 0x30, 1, 0]

  function NumberFields(r: Record): (w: seq<u32>)
    requires WellFormed(r)
    ensures |w| == 10
  {
    [r.sequence, r.moduleId, r.moduleVersion, r.minVersion, StateNumber(r.state), r.activeSlot, r.candidateSlot,
     r.failures, r.result, 0]
  }

  function Body(r: Record): (b: seq<u8>)
    requires WellFormed(r)
    ensures |b| == 96
  {
    PREFIX + [r.kind, 0] + StoreWords(NumberFields(r)) + r.signer + r.fingerprint
  }

  /** The 128 bytes of a record, or nothing if the record is refused */
  function EncodeRecord(crc: Checksum, r: Record): (b: Option<seq<u8>>)
    ensures b.Some? ==> |b.value| == 128
  {
    if WellFormed(r) then Some(Body(r) + Store32(crc(Body(r))) + ZeroBytes(28)) else None
  }

  function DecodeRecord(crc: Checksum, raw: seq<u8>): Option<Record> {
    if |raw| != 128 || raw[100..] != ZeroBytes(28) then None
    else if crc(raw[..96]) != Load32(raw[96..]) then None
    else if raw[..6] != PREFIX then None
    else
      var kind := raw[6] as int + 0x100 * raw[7] as int;
      var w := LoadWords(raw[8..48]);
      var state := StateOf(w[4]);
      if w[9] != 0 || w[0] == 0 || state.None? || !IsSlot(w[5]) || !IsSlot(w[6]) then None
      else
        var r := Record(kind, w[0], w[1], w[2], w[3], state.value, w[5], w[6], w[7], w[8], raw[48..64], raw[64..96]);
        if kind == KIND_STATE then
          if r.moduleId == 0 || r.moduleVersion == 0 then None else Some(r)
        else if kind == KIND_REVOCATION then
          if r.moduleId != 0 || r.moduleVersion != 0 || r.minVersion != 0 || r.state != Empty
              || r.activeSlot != SLOT_NONE
             || r.candidateSlot != SLOT_NONE || r.failures != 0 || r.result != 0 || r.signer == ZeroBytes(16)
             || r.fingerprint != ZeroBytes(32)
          then None else Some(r)
        else None
  }

  /** What is written is read back. */
  lemma {:induction false} DecodeEncode(crc: Checksum, r: Record)
    requires WellFormed(r)
    ensures DecodeRecord(crc, EncodeRecord(crc, r).value) == Some(r)
  {
    hide LoadWords, StoreWords, Load32, Store32;
    var b, w := Body(r), NumberFields(r);
    var raw := b + Store32(crc(b)) + ZeroBytes(28);
    assert raw[..96] == b && raw[100..] == ZeroBytes(28);
    assert raw[96..][..4] == Store32(crc(b));
    Store32Load32(crc(b), raw[96..]);
    assert raw[..6] == PREFIX && raw[6] == r.kind && raw[7] == 0;
    assert raw[8..48] == StoreWords(w);
    WordsRoundTrip(w);
    assert raw[48..64] == r.signer && raw[64..96] == r.fingerprint;
  }

  /** What is accepted is exactly what is written for the record read. */
  lemma {:induction false} EncodeDecode(crc: Checksum, raw: seq<u8>)
    requires DecodeRecord(crc, raw).Some?
    ensures EncodeRecord(crc, DecodeRecord(crc, raw).value) == Some(raw)
  {
    hide LoadWords, StoreWords, Load32, Store32;
    var r := DecodeRecord(crc, raw).value;
    var w := LoadWords(raw[8..48]);
    assert w == NumberFields(r);
    BytesRoundTrip(raw[8..48]);
    assert [raw[6], raw[7]] == [r.kind, 0];
    assert Body(r) == raw[..96] by {
      assert raw[..96] == raw[..6] + [raw[6], raw[7]] + raw[8..48] + raw[48..64] + raw[64..96];
    }
    Store32Inverse(raw[96..100]);
    LoadPrefix(raw[96..]);
    assert raw[96..][..4] == raw[96..100];
    assert raw == raw[..96] + raw[96..100] + raw[100..];
  }

  // ----- recovery

  /** The records that a scan of the catalog yields: whole chunks that decode, in order */
  function Records(crc: Checksum, catalog: seq<u8>): seq<Record> {
    if |catalog| < 128 then []
    else
      var r := DecodeRecord(crc, catalog[..128]);
      (if r.Some? then [r.value] else []) + Records(crc, catalog[128..])
  }

  lemma {:induction false} ScanHead(crc: Checksum, c: seq<u8>)
    requires |c| >= 128
    ensures var r := DecodeRecord(crc, c[..128]);
            Records(crc, c) == (if r.Some? then [r.value] else []) + Records(crc, c[128..])
  {
    hide DecodeRecord;
  }

  lemma {:induction false} ScanEnd(crc: Checksum, c: seq<u8>)
    requires |c| < 128
    ensures Records(crc, c) == []
  {
  }

  /** Scanning more bytes only adds records at the end. */
  lemma {:induction false} RecordsAppend(crc: Checksum, c: seq<u8>, x: seq<u8>)
    ensures exists tail :: Records(crc, c + x) == Records(crc, c) + tail
    ensures |c| % 128 == 0 ==> Records(crc, c + x) == Records(crc, c) + Records(crc, x)
    decreases |c|
  {
    hide DecodeRecord, Records;
    if |c| < 128 {
      ScanEnd(crc, c);
      assert Records(crc, c + x) == Records(crc, c) + Records(crc, c + x);
      if |c| == 0 {
        assert c + x == x;
      }
    } else {
      assert (c + x)[..128] == c[..128] && (c + x)[128..] == c[128..] + x;
      RecordsAppend(crc, c[128..], x);
      var tail :| Records(crc, c[128..] + x) == Records(crc, c[128..]) + tail;
      ScanHead(crc, c);
      ScanHead(crc, c + x);
      assert Records(crc, c + x) == Records(crc, c) + tail;
    }
  }

  /** A torn last append is not seen at all. */
  lemma {:induction false} TornAppend(crc: Checksum, c: seq<u8>, torn: seq<u8>)
    requires |c| % 128 == 0 && |torn| < 128
    ensures Records(crc, c + torn) == Records(crc, c)
  {
    RecordsAppend(crc, c, torn);
  }

  /** A whole append adds its record and nothing else. */
  lemma {:induction false} WholeAppend(crc: Checksum, c: seq<u8>, r: Record)
    requires |c| % 128 == 0 && WellFormed(r)
    ensures Records(crc, c + EncodeRecord(crc, r).value) == Records(crc, c) + [r]
  {
    var b := EncodeRecord(crc, r).value;
    RecordsAppend(crc, c, b);
    DecodeEncode(crc, r);
    hide EncodeRecord, DecodeRecord;
    assert b[..128] == b && b[128..] == [];
    assert Records(crc, b) == [r] + Records(crc, []);
  }

  /** What recovery knows: the newest record, the newest confirmed record and the version floor of
      each module, and the revoked signers */
  datatype View = View(latest: map<int, Record>, confirmed: map<int, Record>, floors: map<int, int>,
      revoked: set<seq<u8>>)

  function Floor(v: View, m: int): int {
    if m in v.floors then v.floors[m] else 0
  }

  function Max(x: int, y: int): int {
    if x >= y then x else y
  }

  /** The newer of the record known so far and the next one, by sequence number */
  function Newer(known: map<int, Record>, r: Record): map<int, Record> {
    if r.moduleId !in known || r.sequence >= known[r.moduleId].sequence then known[r.moduleId := r] else known
  }

  function Noted(v: View, r: Record): View {
    if r.kind == KIND_REVOCATION then v.(revoked := v.revoked + {r.signer})
    else View(
      Newer(v.latest, r),
      if r.state == Confirmed then Newer(v.confirmed, r) else v.confirmed,
      v.floors[r.moduleId := Max(Floor(v, r.moduleId), r.minVersion)],
      v.revoked)
  }

  function ViewOf(rs: seq<Record>): View {
    if rs == [] then View(map[], map[], map[], {}) else Noted(ViewOf(rs[..|rs| - 1]), rs[|rs| - 1])
  }

  /** The scan for records that decode, chunk by chunk */
  method IterValidRecords(crc: Checksum, catalog: seq<u8>) returns (records: seq<Record>)
    ensures records == Records(crc, catalog)
  {
    hide DecodeRecord, Records;
    records := [];
    var offset := 0;
    assert catalog[0..] == catalog;
    while offset + 128 <= |catalog|
      invariant 0 <= offset <= |catalog|
      invariant Records(crc, catalog) == records + Records(crc, catalog[offset..])
    {
      var r := DecodeRecord(crc, catalog[offset..offset + 128]);
      ScanHead(crc, catalog[offset..]);
      assert catalog[offset..][..128] == catalog[offset..offset + 128]
          && catalog[offset..][128..] == catalog[offset + 128..];
      if r.Some? {
        records := records + [r.value];
      }
      offset := offset + 128;
    }
    ScanEnd(crc, catalog[offset..]);
  }

  /** The records folded one by one into the dictionaries */
  method RecoverCatalog(crc: Checksum, catalog: seq<u8>) returns (records: seq<Record>, view: View)
    ensures records == Records(crc, catalog) && view == ViewOf(records)
  {
    hide Records;
    records := IterValidRecords(crc, catalog);
    view := View(map[], map[], map[], {});
    for i := 0 to |records|
      invariant view == ViewOf(records[..i])
    {
      var r := records[i];
      if r.kind == KIND_REVOCATION {
        view := view.(revoked := view.revoked + {r.signer});
      } else {
        var floor := Max(Floor(view, r.moduleId), r.minVersion);
        view := view.(floors := view.floors[r.moduleId := floor]);
        if r.moduleId !in view.latest || r.sequence >= view.latest[r.moduleId].sequence {
          view := view.(latest := view.latest[r.moduleId := r]);
        }
        if r.state == Confirmed {
          if r.moduleId !in view.confirmed || r.sequence >= view.confirmed[r.moduleId].sequence {
            view := view.(confirmed := view.confirmed[r.moduleId := r]);
          }
        }
      }
      assert records[..i + 1][..i] == records[..i];
    }
    assert records[..|records|] == records;
  }

  /** More records never lower a floor and never lift a revocation. */
  lemma {:induction false} ViewMonotone(rs: seq<Record>, more: seq<Record>, m: int)
    ensures Floor(ViewOf(rs), m) <= Floor(ViewOf(rs + more), m)
    ensures ViewOf(rs).revoked <= ViewOf(rs + more).revoked
    decreases |more|
  {
    if more == [] {
      assert rs + more == rs;
    } else {
      var k := |more| - 1;
      ViewMonotone(rs, more[..k], m);
      assert (rs + more)[..|rs + more| - 1] == rs + more[..k];
    }
  }

  /** Whatever bytes follow, recovered floors and revocations only grow. */
  lemma {:induction false} RecoveryMonotone(crc: Checksum, c: seq<u8>, x: seq<u8>, m: int)
    ensures Floor(ViewOf(Records(crc, c)), m) <= Floor(ViewOf(Records(crc, c + x)), m)
    ensures ViewOf(Records(crc, c)).revoked <= ViewOf(Records(crc, c + x)).revoked
  {
    hide Records, ViewOf;
    RecordsAppend(crc, c, x);
    var tail :| Records(crc, c + x) == Records(crc, c) + tail;
    ViewMonotone(Records(crc, c), tail, m);
  }

  // ----- catalogs written by whole appends: the newest record is the last one

  predicate Increasing(rs: seq<Record>) {
    forall i, j :: 0 <= i < j < |rs| ==> rs[i].sequence < rs[j].sequence
  }

  /** The last state record of a module, or its last confirmed one */
  function Last(rs: seq<Record>, m: int, confirmedOnly: bool): Option<Record> {
    if rs == [] then None
    else
      var r := rs[|rs| - 1];
      if r.kind != KIND_REVOCATION && r.moduleId == m && (confirmedOnly ==> r.state == Confirmed) then Some(r)
      else Last(rs[..|rs| - 1], m, confirmedOnly)
  }

  function Lookup(known: map<int, Record>, m: int): Option<Record> {
    if m in known then Some(known[m]) else None
  }

  lemma {:induction false} LastIsIn(rs: seq<Record>, m: int, confirmedOnly: bool)
    requires Last(rs, m, confirmedOnly).Some?
    ensures Last(rs, m, confirmedOnly).value in rs
    ensures var r := Last(rs, m, confirmedOnly).value;
            r.kind != KIND_REVOCATION && r.moduleId == m && (confirmedOnly ==> r.state == Confirmed)
  {
    var n := |rs| - 1;
    var r := rs[n];
    if r.kind != KIND_REVOCATION && r.moduleId == m && (confirmedOnly ==> r.state == Confirmed) {
    } else {
      LastIsIn(rs[..n], m, confirmedOnly);
    }
  }

  /** With increasing sequence numbers, the record with the highest number is the last one. */
  lemma {:induction false} NewestIsLast(rs: seq<Record>, m: int)
    requires Increasing(rs)
    ensures Lookup(ViewOf(rs).latest, m) == Last(rs, m, false)
    ensures Lookup(ViewOf(rs).confirmed, m) == Last(rs, m, true)
  {
    if rs != [] {
      var n := |rs| - 1;
      var r := rs[n];
      NewestIsLast(rs[..n], m);
      NewestIsLast(rs[..n], r.moduleId);
      if Last(rs[..n], r.moduleId, false).Some? {
        LastIsIn(rs[..n], r.moduleId, false);
      }
      if Last(rs[..n], r.moduleId, true).Some? {
        LastIsIn(rs[..n], r.moduleId, true);
      }
    }
  }
}
