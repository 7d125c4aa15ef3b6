/**
  What every run of the module installer keeps, wherever power is lost: the confirmed package of a
  module stays readable and unchanged until the module is confirmed again, and its version floor
  equals the confirmed version and never goes down.
 */
module InstallSafety {
  import opened Common
  import opened Limbs
  import opened InstallCatalog
  import opened InstallSteps

  // ----- the invariant of one module

  function Confirmation(e: Env, img: Image, m: int): Option<Record> {
    Lookup(Known(e, img).confirmed, m)
  }

  function Newest(e: Env, img: Image, m: int): Option<Record> {
    Lookup(Known(e, img).latest, m)
  }

  function FloorOf(e: Env, img: Image, m: int): int {
    Floor(Known(e, img), m)
  }

  /** The catalog holds whole records, in increasing order of sequence number. */
  predicate Whole(e: Env, img: Image) {
    |img.catalog| % 128 == 0 && Increasing(Recs(e, img))
  }

  /** Recovery looks at the catalog alone. */
  lemma {:induction false} SameCatalog(e: Env, img: Image, next: Image)
    requires img.catalog == next.catalog
    ensures Known(e, next) == Known(e, img) && Recs(e, next) == Recs(e, img)
    ensures Whole(e, next) <==> Whole(e, img)
  {
  }

  function Other(slot: int): int {
    if slot == SLOT_A then SLOT_B else SLOT_A
  }

  /** A slot whose package, if it is one of module m at all, does not have version v */
  predicate VersionDiffers(e: Env, slots: map<(int, int), seq<u8>>, m: int, slot: int, v: int) {
    (m, slot) in slots && e.parse(slots[(m, slot)]).Some? && e.parse(slots[(m, slot)]).value.moduleId == m ==>
      e.parse(slots[(m, slot)]).value.version != v
  }

  /** Before the first confirmation the floor is 0 and slot B is unused.  Afterwards the floor is the
      confirmed version, the confirmed slot holds the confirmed package, and the other slot holds
      no package of that same version. */
  predicate ModuleOk(e: Env, k: Option<Record>, floor: int, slots: map<(int, int), seq<u8>>, m: int) {
    match k
    case None => floor == 0 && (m, SLOT_B) !in slots
    case Some(r) =>
      && floor == r.moduleVersion && floor > 0
      && (r.activeSlot == SLOT_A || r.activeSlot == SLOT_B)
      && (m, r.activeSlot) in slots
      && var package := slots[(m, r.activeSlot)];
      && e.sha(package) == r.fingerprint
      && e.parse(package).Some?
      && e.parse(package).value.moduleId == m && e.parse(package).value.version == r.moduleVersion
      && (e.parse(package).value.moduleType == 1 || e.parse(package).value.moduleType == 2)
      && VersionDiffers(e, slots, m, Other(r.activeSlot), r.moduleVersion)
  }

  predicate Good(e: Env, img: Image, m: int) {
    Whole(e, img) && ModuleOk(e, Confirmation(e, img, m), FloorOf(e, img, m), img.slots, m)
  }

  /** The confirmed package, its slot and the floor are the same in both images. */
  predicate Kept(e: Env, was: Image, img: Image, m: int) {
    && CurrentPackage(e, img, m) == CurrentPackage(e, was, m)
    && ActiveSlotOf(Confirmation(e, img, m)) == ActiveSlotOf(Confirmation(e, was, m))
    && FloorOf(e, img, m) == FloorOf(e, was, m)
  }

  // ----- one append

  /** A record concerns a module unless it revokes a signer. */
  predicate About(r: Record, m: int) {
    r.kind != KIND_REVOCATION && r.moduleId == m
  }

  lemma {:induction false} KnownIsRecorded(rs: seq<Record>, m: int)
    ensures m in ViewOf(rs).latest ==> ViewOf(rs).latest[m] in rs && About(ViewOf(rs).latest[m], m)
    ensures m in ViewOf(rs).confirmed ==> ViewOf(rs).confirmed[m] in rs && About(ViewOf(rs).confirmed[m], m)
  {
    if rs != [] {
      KnownIsRecorded(rs[..|rs| - 1], m);
    }
  }

  lemma {:induction false} RecordsWellFormed(crc: Checksum, c: seq<u8>, i: int)
    requires 0 <= i < |Records(crc, c)|
    ensures WellFormed(Records(crc, c)[i])
    decreases |c|
  {
    hide DecodeRecord, EncodeRecord;
    ScanHead(crc, c);
    var r := DecodeRecord(crc, c[..128]);
    if r.Some? && i == 0 {
      Accepted(crc, c[..128]);
    } else {
      RecordsWellFormed(crc, c[128..], if r.Some? then i - 1 else i);
    }
  }

  lemma {:induction false} Accepted(crc: Checksum, raw: seq<u8>)
    requires DecodeRecord(crc, raw).Some?
    ensures WellFormed(DecodeRecord(crc, raw).value)
  {
    hide DecodeRecord;
    EncodeDecode(crc, raw);
  }

  /** What recovery knows of a module is a well-formed record, whatever the flash holds. */
  lemma {:induction false} KnownWellFormed(e: Env, img: Image, m: int)
    ensures Newest(e, img, m).Some? ==> WellFormed(Newest(e, img, m).value)
    ensures Confirmation(e, img, m).Some? ==> WellFormed(Confirmation(e, img, m).value)
  {
    hide ViewOf, Records, WellFormed;
    var rs := Recs(e, img);
    KnownIsRecorded(rs, m);
    forall i | 0 <= i < |rs| ensures WellFormed(rs[i]) {
      RecordsWellFormed(e.crc, img.catalog, i);
    }
  }

  /** What one more record, with a sequence number above all others, does to recovery */
  lemma {:induction false} AppendView(rs: seq<Record>, r: Record, m: int)
    requires Increasing(rs)
    requires forall i :: 0 <= i < |rs| ==> rs[i].sequence < r.sequence
    ensures Increasing(rs + [r])
    ensures Lookup(ViewOf(rs + [r]).latest, m) == if About(r, m) then Some(r) else Lookup(ViewOf(rs).latest, m)
    ensures Lookup(ViewOf(rs + [r]).confirmed, m)
         == if About(r, m) && r.state == Confirmed then Some(r) else Lookup(ViewOf(rs).confirmed, m)
    ensures Floor(ViewOf(rs + [r]), m)
         == if About(r, m) then Max(Floor(ViewOf(rs), m), r.minVersion) else Floor(ViewOf(rs), m)
    ensures ViewOf(rs + [r]).revoked == ViewOf(rs).revoked + if r.kind == KIND_REVOCATION then {r.signer} else {}
  {
    KnownIsRecorded(rs, m);
    assert (rs + [r])[..|rs|] == rs;
    assert ViewOf(rs + [r]) == Noted(ViewOf(rs), r);
    hide ViewOf;
  }

  lemma {:induction false} MaxSequenceBounds(rs: seq<Record>, i: int)
    requires 0 <= i < |rs|
    ensures rs[i].sequence <= MaxSequence(rs)
  {
    if i < |rs| - 1 {
      MaxSequenceBounds(rs[..|rs| - 1], i);
    }
  }

  /** A successful append keeps the catalog whole and the slots as they are, and recovery then sees
      exactly one more record. */
  lemma {:induction false} AppendSpec(e: Env, img: Image, r: Record, m: int)
    requires Whole(e, img) && Append(e, img, r).Some?
    ensures var next := Append(e, img, r).value;
            && Whole(e, next) && next.slots == img.slots
            && NextSequence(Recs(e, img)).Some?
            && var s := r.(sequence := NextSequence(Recs(e, img)).value);
            && WellFormed(s)
            && Newest(e, next, m) == (if About(r, m) then Some(s) else Newest(e, img, m))
            && Confirmation(e, next, m)
               == (if About(r, m) && r.state == Confirmed then Some(s) else Confirmation(e, img, m))
            && FloorOf(e, next, m)
               == (if About(r, m) then Max(FloorOf(e, img, m), r.minVersion) else FloorOf(e, img, m))
            && Known(e, next).revoked == Known(e, img).revoked + (if r.kind == KIND_REVOCATION then {r.signer} else {})
  {
    hide ViewOf, Records;
    var rs := Recs(e, img);
    var s := r.(sequence := NextSequence(rs).value);
    forall i | 0 <= i < |rs| ensures rs[i].sequence < s.sequence {
      MaxSequenceBounds(rs, i);
    }
    WholeAppend(e.crc, img.catalog, s);
    AppendView(rs, s, m);
  }

  /** A record that neither confirms the module nor raises its floor keeps everything. */
  lemma {:induction false} QuietAppend(e: Env, img: Image, r: Record, m: int)
    requires Good(e, img, m) && Append(e, img, r).Some?
    requires About(r, m) ==> r.state != Confirmed && r.minVersion <= FloorOf(e, img, m)
    ensures Good(e, Append(e, img, r).value, m) && Kept(e, img, Append(e, img, r).value, m)
  {
    hide Append, Known, Whole;
    AppendSpec(e, img, r, m);
  }

  /** A change of slots outside the confirmed one keeps everything, as long as the other slot does not
      get a package of the confirmed version. */
  lemma {:induction false} SlotChange(e: Env, img: Image, next: Image, m: int)
    requires Good(e, img, m) && next.catalog == img.catalog
    requires
      var k := Confirmation(e, img, m);
      if k.Some? then
        && (m, k.value.activeSlot) in next.slots
        && next.slots[(m, k.value.activeSlot)] == img.slots[(m, k.value.activeSlot)]
        && VersionDiffers(e, next.slots, m, Other(k.value.activeSlot), FloorOf(e, img, m))
      else (m, SLOT_B) !in next.slots
    ensures Good(e, next, m) && Kept(e, img, next, m)
  {
    assert Known(e, next) == Known(e, img);
    hide Known;
  }

  // ----- the operations

  /** The images between the writes of an operation all keep module m as it was. */
  predicate AllKept(e: Env, was: Image, images: seq<Image>, m: int) {
    forall i :: 0 <= i < |images| ==> Good(e, images[i], m) && Kept(e, was, images[i], m)
  }

  lemma {:induction false} NoImages(e: Env, was: Image, m: int)
    ensures AllKept(e, was, [], m)
  {
  }

  /** The newest record never asks for more than the floor. */
  lemma {:induction false} NewestBelowFloor(rs: seq<Record>, m: int)
    requires Increasing(rs)
    ensures m in ViewOf(rs).latest ==>
      ViewOf(rs).latest[m].minVersion <= Floor(ViewOf(rs), m) && About(ViewOf(rs).latest[m], m)
    ensures m in ViewOf(rs).confirmed ==>
      ViewOf(rs).confirmed[m].minVersion <= Floor(ViewOf(rs), m) && About(ViewOf(rs).confirmed[m], m)
    ensures m in ViewOf(rs).confirmed ==> m in ViewOf(rs).latest
  {
    if rs != [] {
      var n := |rs| - 1;
      NewestBelowFloor(rs[..n], m);
      AppendView(rs[..n], rs[n], m);
      assert rs[..n] + [rs[n]] == rs;
    }
  }

  lemma {:induction false} KnownBelowFloor(e: Env, img: Image, m: int)
    requires Whole(e, img)
    ensures Newest(e, img, m).Some? ==>
      Newest(e, img, m).value.minVersion <= FloorOf(e, img, m) && About(Newest(e, img, m).value, m)
    ensures Confirmation(e, img, m).Some? ==> Confirmation(e, img, m).value.minVersion <= FloorOf(e, img, m)
    ensures Confirmation(e, img, m).Some? ==> Newest(e, img, m).Some?
  {
    hide ViewOf, Records;
    NewestBelowFloor(Recs(e, img), m);
  }

  lemma {:induction false} SlotIsOwn(e: Env, img: Image, m: int, slot: int)
    requires VerifySlot(e, img, m, slot).Some?
    ensures var c := VerifySlot(e, img, m, slot).value;
            && slot != SLOT_NONE && (m, slot) in img.slots
            && var package := img.slots[(m, slot)];
            && e.parse(package).Some? && e.parse(package).value.moduleId == m && c.moduleId == m
            && c.version == e.parse(package).value.version && c.version >= FloorOf(e, img, m)
            && c.fingerprint == e.sha(package)
            && (e.parse(package).value.moduleType == 1 || e.parse(package).value.moduleType == 2)
  {
    hide Known;
  }

  lemma {:induction false} InstallKeeps(e: Env, img: Image, package: seq<u8>, m: int)
    requires EnvOk(e) && Good(e, img, m)
    ensures AllKept(e, img, InstallPlan(e, img, package).images, m)
  {
    hide Known, Append, CurrentPackage, Whole, VerifySlot;
    var v := Known(e, img);
    var images := InstallPlan(e, img, package).images;
    if images != [] {
      var c := VerifyPackage(e, v, package, None).value;
      var active := ActiveSlotOf(Lookup(v.confirmed, c.moduleId));
      var candidate, floor := CandidateFor(active), Floor(v, c.moduleId);
      var first := StateRecord(c, Receiving, active, candidate, floor, 0);
      QuietAppend(e, img, first, m);
      AppendSpec(e, img, first, c.moduleId);
      WriteKeeps(e, images[0], c.moduleId, candidate, package, m);
      if |images| == 3 {
        QuietAppend(e, images[1], StateRecord(c, Verified, active, candidate, floor, 0), m);
      }
    }
  }

  /** Writing the candidate slot, whole or torn, keeps the confirmed package. */
  lemma {:induction false} WriteKeeps(e: Env, img: Image, id: int, slot: int, content: seq<u8>, m: int)
    requires EnvOk(e) && Good(e, img, m)
    requires slot == CandidateFor(ActiveSlotOf(Confirmation(e, img, id)))
    requires id == m && e.parse(content).Some? && FloorOf(e, img, m) != 0 ==>
      e.parse(content).value.version > FloorOf(e, img, m)
    ensures var next := img.(slots := img.slots[(id, slot) := content]); Good(e, next, m) && Kept(e, img, next, m)
  {
    hide Known, CurrentPackage, Whole;
    SlotChange(e, img, img.(slots := img.slots[(id, slot) := content]), m);
  }

  lemma {:induction false} ActivateKeeps(e: Env, img: Image, id: int, m: int)
    requires Good(e, img, m)
    ensures AllKept(e, img, ActivatePlan(e, img, id).images, m)
  {
    KnownBelowFloor(e, img, id);
    hide Append, CurrentPackage, VerifySlot, Known, Good, Kept;
    var images := ActivatePlan(e, img, id).images;
    if images != [] {
      var r := Newest(e, img, id).value;
      var c := VerifySlot(e, img, id, r.candidateSlot).value;
      SlotIsOwn(e, img, id, r.candidateSlot);
      QuietAppend(e, img, StateRecord(c, Pending, r.activeSlot, r.candidateSlot, r.minVersion, r.failures), m);
      if |images| == 2 {
        KeptFloor(e, img, images[0], m);
        QuietAppend(e, images[0], StateRecord(c, Active, r.candidateSlot, r.activeSlot, r.minVersion, r.failures), m);
        KeptTransitive(e, img, images[0], images[1], m);
      }
    }
  }

  lemma {:induction false} KeptFloor(e: Env, was: Image, img: Image, m: int)
    requires Kept(e, was, img, m)
    ensures FloorOf(e, img, m) == FloorOf(e, was, m)
  {
  }

  lemma {:induction false} KeptTransitive(e: Env, a: Image, b: Image, c: Image, m: int)
    requires Kept(e, a, b, m) && Kept(e, b, c, m)
    ensures Kept(e, a, c, m)
  {
  }

  /** A single record of module id that does not confirm it, appended or refused */
  lemma {:induction false} OneRecordKeeps(e: Env, img: Image, r: Record, id: int, m: int)
    requires Good(e, img, m) && r.moduleId == id && r.state != Confirmed
    requires r.minVersion <= FloorOf(e, img, id)
    ensures AllKept(e, img, OneWrite(Append(e, img, r)).images, m)
  {
    hide Append, Known, Good, Kept;
    if Append(e, img, r).Some? {
      QuietAppend(e, img, r, m);
    }
  }

  lemma {:induction false} RollbackKeeps(e: Env, img: Image, id: int, m: int)
    requires Good(e, img, m)
    ensures AllKept(e, img, RollbackPlan(e, img, id).images, m)
  {
    KnownBelowFloor(e, img, id);
    hide Append, CurrentPackage, VerifySlot, Known, Good, AllKept;
    if RollbackPlan(e, img, id).images == [] {
      NoImages(e, img, m);
    } else {
      var r, k := Newest(e, img, id).value, Confirmation(e, img, id).value;
      var c := VerifySlot(e, img, id, k.activeSlot).value;
      SlotIsOwn(e, img, id, k.activeSlot);
      var candidate := if r.activeSlot != k.activeSlot then r.activeSlot else r.candidateSlot;
      OneRecordKeeps(e, img, StateRecord(c, Rejected, k.activeSlot, candidate, Max(r.minVersion, k.minVersion),
          r.failures + 1), id, m);
    }
  }

  lemma {:induction false} InitFailedKeeps(e: Env, img: Image, id: int, m: int)
    requires Good(e, img, m)
    ensures AllKept(e, img, InitFailedPlan(e, img, id).images, m)
  {
    KnownBelowFloor(e, img, id);
    hide Append, CurrentPackage, VerifySlot, Known, Good, AllKept;
    if InitFailedPlan(e, img, id).images == [] {
      NoImages(e, img, m);
    } else {
      var r := Newest(e, img, id).value;
      var failing := if r.state == Active then r.activeSlot else r.candidateSlot;
      var c := VerifySlot(e, img, id, failing).value;
      SlotIsOwn(e, img, id, failing);
      var state := if r.failures + 1 >= e.threshold then Quarantined else Rejected;
      OneRecordKeeps(e, img, StateRecord(c, state, ActiveSlotOf(Confirmation(e, img, id)), failing, r.minVersion,
          r.failures + 1), id, m);
    }
  }

  lemma {:induction false} QuarantineKeeps(e: Env, img: Image, id: int, m: int)
    requires Good(e, img, m)
    ensures AllKept(e, img, QuarantinePlan(e, img, id).images, m)
  {
    KnownBelowFloor(e, img, id);
    hide Append, CurrentPackage, VerifySlot, Known, Good, AllKept;
    if QuarantinePlan(e, img, id).images == [] {
      NoImages(e, img, m);
    } else {
      var r := Newest(e, img, id).value;
      var slot := if r.candidateSlot != SLOT_NONE then r.candidateSlot else r.activeSlot;
      var c := VerifySlot(e, img, id, slot).value;
      SlotIsOwn(e, img, id, slot);
      OneRecordKeeps(e, img, StateRecord(c, Quarantined, ActiveSlotOf(Confirmation(e, img, id)), slot, r.minVersion,
          r.failures), id, m);
    }
  }

  lemma {:induction false} RevokeKeeps(e: Env, img: Image, signer: seq<u8>, m: int)
    requires Good(e, img, m)
    ensures AllKept(e, img, RevokePlan(e, img, signer).images, m)
  {
    hide Append, CurrentPackage, Known, Good, Kept;
    var r := Record(KIND_REVOCATION, 0, 0, 0, 0, Empty, SLOT_NONE, SLOT_NONE, 0, 0, signer, ZeroBytes(32));
    if RevokePlan(e, img, signer).images != [] {
      QuietAppend(e, img, r, m);
    }
  }

  /** The condition under which removing a candidate leaves the confirmed package alone: the slot
      that would be erased is not the confirmed one. */
  predicate Careful(e: Env, img: Image, m: int) {
    Newest(e, img, m).Some? && Confirmation(e, img, m).Some? ==>
      Newest(e, img, m).value.candidateSlot != Confirmation(e, img, m).value.activeSlot
  }

  /** Confirming again the package that is already confirmed changes nothing. */
  lemma {:induction false} ReconfirmKeeps(e: Env, img: Image, minVersion: int, m: int)
    requires Good(e, img, m) && Confirmation(e, img, m).Some? && minVersion <= FloorOf(e, img, m)
    requires VerifySlot(e, img, m, Confirmation(e, img, m).value.activeSlot).Some?
    ensures var k := Confirmation(e, img, m).value;
            var c := VerifySlot(e, img, m, k.activeSlot).value;
            var next := Append(e, img, StateRecord(c, Confirmed, k.activeSlot, SLOT_NONE, minVersion, 0));
            next.Some? ==> Good(e, next.value, m) && Kept(e, img, next.value, m)
  {
    hide Append, Known, VerifySlot;
    var k := Confirmation(e, img, m).value;
    SlotIsOwn(e, img, m, k.activeSlot);
    var c := VerifySlot(e, img, m, k.activeSlot).value;
    var r := StateRecord(c, Confirmed, k.activeSlot, SLOT_NONE, minVersion, 0);
    if Append(e, img, r).Some? {
      AppendSpec(e, img, r, m);
    }
  }

  lemma {:induction false} EraseKeeps(e: Env, img: Image, id: int, slot: int, m: int)
    requires Good(e, img, m)
    requires id == m && Confirmation(e, img, m).Some? ==> Confirmation(e, img, m).value.activeSlot != slot
    ensures var next := img.(slots := img.slots - {(id, slot)});
            && Good(e, next, m) && Kept(e, img, next, m)
            && (forall i :: Newest(e, next, i) == Newest(e, img, i))
            && (forall i :: Confirmation(e, next, i) == Confirmation(e, img, i))
  {
    var next := img.(slots := img.slots - {(id, slot)});
    assert Known(e, next) == Known(e, img);
    hide Known, CurrentPackage, Whole;
    SlotChange(e, img, next, m);
  }

  lemma {:induction false} RemoveCandidateKeeps(e: Env, img: Image, id: int, m: int)
    requires Good(e, img, m) && (id == m ==> Careful(e, img, m))
    ensures AllKept(e, img, RemoveCandidatePlan(e, img, id).images, m)
  {
    KnownBelowFloor(e, img, id);
    hide Append, CurrentPackage, VerifySlot, Known, Good, Kept;
    var images := RemoveCandidatePlan(e, img, id).images;
    if images != [] {
      var r := Newest(e, img, id).value;
      EraseKeeps(e, img, id, r.candidateSlot, m);
      var erased := images[0];
      if |images| == 2 {
        KeptFloor(e, img, erased, m);
        var k := Confirmation(e, img, id);
        if k.Some? {
          var c := VerifySlot(e, erased, id, k.value.activeSlot).value;
          SlotIsOwn(e, erased, id, k.value.activeSlot);
          if id == m {
            ReconfirmKeeps(e, erased, r.minVersion, m);
          } else {
            QuietAppend(e, erased, StateRecord(c, Confirmed, k.value.activeSlot, SLOT_NONE, r.minVersion, 0), m);
          }
        } else {
          QuietAppend(e, erased, r.(state := Empty, activeSlot := SLOT_NONE, candidateSlot := SLOT_NONE, result := 0),
              m);
        }
        KeptTransitive(e, img, erased, images[1], m);
      }
    }
  }

  /** A confirmation: the floor becomes the version of the package that is now confirmed, and it is
      strictly higher than before unless the very same package was confirmed again. */
  lemma {:induction false} ConfirmRaises(e: Env, img: Image, m: int)
    requires EnvOk(e) && Good(e, img, m)
    ensures forall i :: 0 <= i < |ConfirmPlan(e, img, m).images| ==>
      var next := ConfirmPlan(e, img, m).images[i];
      && Good(e, next, m)
      && FloorOf(e, img, m) <= FloorOf(e, next, m)
      && Confirmation(e, next, m).Some?
      && CurrentPackage(e, next, m) == Some(img.slots[(m, Confirmation(e, next, m).value.activeSlot)])
      && (Kept(e, img, next, m) || FloorOf(e, img, m) < FloorOf(e, next, m))
  {
    KnownBelowFloor(e, img, m);
    hide Append, VerifySlot, Known;
    if ConfirmPlan(e, img, m).images != [] {
      var r := Newest(e, img, m).value;
      SlotIsOwn(e, img, m, r.activeSlot);
      var c := VerifySlot(e, img, m, r.activeSlot).value;
      AppendSpec(e, img, StateRecord(c, Confirmed, r.activeSlot, SLOT_NONE, Max(r.minVersion, c.version), 0), m);
    }
  }

  lemma {:induction false} ConfirmOther(e: Env, img: Image, id: int, m: int)
    requires Good(e, img, m) && id != m
    ensures AllKept(e, img, ConfirmPlan(e, img, id).images, m)
  {
    hide Append, CurrentPackage, VerifySlot, Known, Good, Kept;
    if ConfirmPlan(e, img, id).images != [] {
      var r := Newest(e, img, id).value;
      SlotIsOwn(e, img, id, r.activeSlot);
      var c := VerifySlot(e, img, id, r.activeSlot).value;
      QuietAppend(e, img, StateRecord(c, Confirmed, r.activeSlot, SLOT_NONE, Max(r.minVersion, c.version), 0), m);
    }
  }

  // ----- whole runs

  /** One operation that makes at most the given number of its writes before power is lost, or an
      installation whose slot write is torn after some bytes */
  datatype Event = Event(op: Op, writes: nat) | TornInstall(package: seq<u8>, length: nat)

  function Cut(img: Image, images: seq<Image>, writes: nat): Image {
    if writes == 0 || images == [] then img
    else if writes >= |images| then images[|images| - 1] else images[writes - 1]
  }

  function TornWrite(e: Env, img: Image, package: seq<u8>, length: nat): Image {
    var images := InstallPlan(e, img, package).images;
    if |images| < 2 || length > |package| then img
    else
      var id := e.parse(package).value.moduleId;
      var slot := CandidateFor(ActiveSlotOf(Confirmation(e, img, id)));
      images[0].(slots := images[0].slots[(id, slot) := package[..length]])
  }

  function After(e: Env, img: Image, ev: Event): Image {
    match ev
    case Event(op, writes) => Cut(img, PlanOf(e, img, op).images, writes)
    case TornInstall(package, length) => TornWrite(e, img, package, length)
  }

  function Run(e: Env, img: Image, evs: seq<Event>): Image
    decreases |evs|
  {
    if evs == [] then img else Run(e, After(e, img, evs[0]), evs[1..])
  }

  /** Every removal of a candidate of module m in a run meets its condition. */
  predicate CarefulRun(e: Env, img: Image, evs: seq<Event>, m: int)
    decreases |evs|
  {
    evs != [] ==>
      && (evs[0].Event? && evs[0].op == RemoveCandidate(m) ==> Careful(e, img, m))
      && CarefulRun(e, After(e, img, evs[0]), evs[1..], m)
  }

  lemma {:induction false} TornInstallKeeps(e: Env, img: Image, package: seq<u8>, length: nat, m: int)
    requires EnvOk(e) && Good(e, img, m)
    ensures var next := TornWrite(e, img, package, length); Good(e, next, m) && Kept(e, img, next, m)
  {
    hide Known, Append, CurrentPackage, Whole, VerifySlot;
    var v := Known(e, img);
    var images := InstallPlan(e, img, package).images;
    if |images| >= 2 && length <= |package| {
      var c := VerifyPackage(e, v, package, None).value;
      var active := ActiveSlotOf(Lookup(v.confirmed, c.moduleId));
      var candidate, floor := CandidateFor(active), Floor(v, c.moduleId);
      var first := StateRecord(c, Receiving, active, candidate, floor, 0);
      QuietAppend(e, img, first, m);
      AppendSpec(e, img, first, c.moduleId);
      assert package[..|package|] == package;
      WriteKeeps(e, images[0], c.moduleId, candidate, package[..length], m);
    }
  }

  /** Every operation but a confirmation of the module itself keeps it, whenever power is lost. */
  lemma {:induction false} EventKeeps(e: Env, img: Image, ev: Event, m: int)
    requires EnvOk(e) && Good(e, img, m)
    requires ev.Event? && ev.op == RemoveCandidate(m) ==> Careful(e, img, m)
    requires ev.Event? ==> ev.op != Confirm(m)
    ensures Good(e, After(e, img, ev), m) && Kept(e, img, After(e, img, ev), m)
  {
    hide Good, Careful, CurrentPackage, Known;
    hide InstallPlan, ActivatePlan, ConfirmPlan, RollbackPlan;
    hide InitFailedPlan, QuarantinePlan, RemoveCandidatePlan, RevokePlan;
    match ev
    case TornInstall(package, length) => TornInstallKeeps(e, img, package, length, m);
    case Event(op, writes) =>
      match op
      case Install(package) => InstallKeeps(e, img, package, m);
      case Activate(id) => ActivateKeeps(e, img, id, m);
      case Confirm(id) => ConfirmOther(e, img, id, m);
      case Rollback(id) => RollbackKeeps(e, img, id, m);
      case InitFailed(id) => InitFailedKeeps(e, img, id, m);
      case Quarantine(id) => QuarantineKeeps(e, img, id, m);
      case RemoveCandidate(id) => RemoveCandidateKeeps(e, img, id, m);
      case Revoke(signer) => RevokeKeeps(e, img, signer, m);
  }

  /** Any event keeps the invariant and the floor; the confirmed package and its slot are the same
      after it unless the floor went up. */
  lemma {:induction false} EventRaises(e: Env, img: Image, ev: Event, m: int)
    requires EnvOk(e) && Good(e, img, m)
    requires ev.Event? && ev.op == RemoveCandidate(m) ==> Careful(e, img, m)
    ensures Good(e, After(e, img, ev), m)
    ensures Kept(e, img, After(e, img, ev), m) || FloorOf(e, img, m) < FloorOf(e, After(e, img, ev), m)
  {
    hide Good, Careful, InstallPlan, ConfirmPlan, CurrentPackage, Known;
    if ev.Event? && ev.op == Confirm(m) {
      ConfirmRaises(e, img, m);
      assert PlanOf(e, img, ev.op) == ConfirmPlan(e, img, m);
    } else {
      EventKeeps(e, img, ev, m);
    }
  }

  /** Across any run, a module that is not confirmed in it keeps its confirmed package, the slot it is
      in and its floor. */
  lemma {:induction false} RunKeeps(e: Env, img: Image, evs: seq<Event>, m: int)
    requires EnvOk(e) && Good(e, img, m) && CarefulRun(e, img, evs, m)
    requires forall i :: 0 <= i < |evs| && evs[i].Event? ==> evs[i].op != Confirm(m)
    ensures Good(e, Run(e, img, evs), m) && Kept(e, img, Run(e, img, evs), m)
    decreases |evs|
  {
    hide Good, Careful, After, CurrentPackage, Known;
    if evs != [] {
      EventKeeps(e, img, evs[0], m);
      RunKeeps(e, After(e, img, evs[0]), evs[1..], m);
    }
  }

  /** Across any run the floor never goes down, and it goes up whenever another package or another slot
      is confirmed in the end. */
  lemma {:induction false} RunRaises(e: Env, img: Image, evs: seq<Event>, m: int)
    requires EnvOk(e) && Good(e, img, m) && CarefulRun(e, img, evs, m)
    ensures Good(e, Run(e, img, evs), m)
    ensures Kept(e, img, Run(e, img, evs), m) || FloorOf(e, img, m) < FloorOf(e, Run(e, img, evs), m)
    decreases |evs|
  {
    hide Good, Careful, After, CurrentPackage, Known;
    if evs != [] {
      EventRaises(e, img, evs[0], m);
      RunRaises(e, After(e, img, evs[0]), evs[1..], m);
    }
  }

  const EMPTY_FLASH: Image := Image([], map[])

  /** In any run from empty flash the floor of a module is 0 before its first confirmation, and
      afterwards it is the version of the confirmed package, which can be read back. */
  lemma {:induction false} FromEmptyFlash(e: Env, evs: seq<Event>, m: int)
    requires EnvOk(e) && CarefulRun(e, EMPTY_FLASH, evs, m)
    ensures var img := Run(e, EMPTY_FLASH, evs);
            && (Confirmation(e, img, m).None? ==> FloorOf(e, img, m) == 0 && CurrentPackage(e, img, m) == None)
            && (Confirmation(e, img, m).Some? ==>
                  && CurrentPackage(e, img, m).Some?
                  && e.parse(CurrentPackage(e, img, m).value).Some?
                  && e.parse(CurrentPackage(e, img, m).value).value.moduleId == m
                  && e.parse(CurrentPackage(e, img, m).value).value.version == FloorOf(e, img, m))
  {
    hide Run, CarefulRun;
    assert Good(e, EMPTY_FLASH, m);
    RunRaises(e, EMPTY_FLASH, evs, m);
  }

  /** From empty flash, after any run, the confirmed package of a module stays what it is through any
      further run in which the module is not confirmed. */
  lemma {:induction false} ConfirmedPackageStays(e: Env, before: seq<Event>, evs: seq<Event>, m: int)
    requires EnvOk(e) && CarefulRun(e, EMPTY_FLASH, before, m) && CarefulRun(e, Run(e, EMPTY_FLASH, before), evs, m)
    requires forall i :: 0 <= i < |evs| && evs[i].Event? ==> evs[i].op != Confirm(m)
    ensures var img := Run(e, EMPTY_FLASH, before); CurrentPackage(e, Run(e, img, evs), m) == CurrentPackage(e, img, m)
  {
    assert Good(e, EMPTY_FLASH, m) by {
      hide Run, CarefulRun;
    }
    hide Run, CarefulRun, Good, EnvOk, CurrentPackage, Known;
    RunRaises(e, EMPTY_FLASH, before, m);
    RunKeeps(e, Run(e, EMPTY_FLASH, before), evs, m);
  }

  /** A catalog append torn by the power loss that ends a run is not seen by recovery at all. */
  lemma {:induction false} TornCatalog(e: Env, img: Image, torn: seq<u8>, m: int)
    requires Whole(e, img) && |torn| < 128
    ensures var next := img.(catalog := img.catalog + torn);
            Known(e, next) == Known(e, img) && CurrentPackage(e, next, m) == CurrentPackage(e, img, m)
  {
    hide Records;
    TornAppend(e.crc, img.catalog, torn);
  }

  /** Removing a candidate keeps the confirmed package exactly when the slot it erases is not the
      confirmed one. */
  lemma {:induction false} RemoveCandidateExactly(e: Env, img: Image, m: int)
    requires Good(e, img, m)
    ensures AllKept(e, img, RemoveCandidatePlan(e, img, m).images, m) <==> Careful(e, img, m)
  {
    if Careful(e, img, m) {
      RemoveCandidateKeeps(e, img, m, m);
    } else {
      var r, k := Newest(e, img, m).value, Confirmation(e, img, m).value;
      var erased := RemoveCandidatePlan(e, img, m).images[0];
      assert erased.slots == img.slots - {(m, r.candidateSlot)} && erased.catalog == img.catalog;
      assert Known(e, erased) == Known(e, img);
      hide Known, Append, VerifySlot;
      assert CurrentPackage(e, erased, m) == None && CurrentPackage(e, img, m).Some?;
      assert !Kept(e, img, erased, m);
    }
  }
}
