/**
  Exactly when the installer's operations succeed: installation, activation and rollback are never
  blocked by what the installer itself has recorded, and a removal after an activation is shown to
  lose the confirmed package.
 */
module InstallProgress {
  import opened Common
  import opened Limbs
  import opened InstallCatalog
  import opened InstallSteps
  import opened InstallSafety

  function LastSequence(e: Env, img: Image): int {
    MaxSequence(Recs(e, img))
  }

  /** An append succeeds exactly if the record is well formed and sequence numbers are left. */
  lemma {:induction false} AppendSucceeds(e: Env, img: Image, r: Record)
    requires Whole(e, img)
    ensures Append(e, img, r).Some? <==> LastSequence(e, img) < 0xFFFFFFFF && WellFormed(r.(sequence := 1))
    ensures Append(e, img, r).Some? ==> LastSequence(e, Append(e, img, r).value) == LastSequence(e, img) + 1
  {
    hide Records;
    var rs := Recs(e, img);
    MaxSequenceNonNegative(rs);
    if Append(e, img, r).Some? {
      var s := r.(sequence := NextSequence(rs).value);
      WholeAppend(e.crc, img.catalog, s);
      assert (rs + [s])[..|rs|] == rs;
    }
  }

  lemma {:induction false} MaxSequenceNonNegative(rs: seq<Record>)
    ensures 0 <= MaxSequence(rs)
  {
    if rs != [] {
      MaxSequenceNonNegative(rs[..|rs| - 1]);
    }
  }

  /** The module signer is not revoked and is not the firmware's. */
  predicate SignerOk(e: Env, img: Image) {
    e.signer !in Known(e, img).revoked && e.firmwareKey != Some(e.signer)
  }

  /** The confirmed package of a module passes verification again as long as its signer does: the
      version floor never stands in its way. */
  lemma {:induction false} ConfirmedVerifies(e: Env, img: Image, m: int)
    requires Good(e, img, m) && Confirmation(e, img, m).Some?
    ensures VerifySlot(e, img, m, Confirmation(e, img, m).value.activeSlot).Some? <==> SignerOk(e, img)
  {
    hide Known;
  }

  /** A rollback succeeds exactly if the signer is still accepted, the failure count can still be
      increased and sequence numbers are left. */
  lemma {:induction false} RollbackExactly(e: Env, img: Image, m: int)
    requires EnvOk(e) && Good(e, img, m) && Confirmation(e, img, m).Some?
    ensures Newest(e, img, m).Some?
    ensures RollbackPlan(e, img, m).done <==>
      SignerOk(e, img) && LastSequence(e, img) < 0xFFFFFFFF && Newest(e, img, m).value.failures < 0xFFFFFFFF
  {
    KnownWellFormed(e, img, m);
    KnownBelowFloor(e, img, m);
    ConfirmedVerifies(e, img, m);
    hide Append, VerifySlot, ViewOf, Records, Good, SignerOk;
    var r, k := Newest(e, img, m).value, Confirmation(e, img, m).value;
    if SignerOk(e, img) {
      SlotIsOwn(e, img, m, k.activeSlot);
      var c := VerifySlot(e, img, m, k.activeSlot).value;
      var candidate := if r.activeSlot != k.activeSlot then r.activeSlot else r.candidateSlot;
      var next := StateRecord(c, Rejected, k.activeSlot, candidate, Max(r.minVersion, k.minVersion), r.failures + 1);
      CheckedSigner(e, img, m, k.activeSlot);
      AppendSucceeds(e, img, next);
    }
  }

  /** Rolling back an activated upgrade rejects it, runs the confirmed slot again and makes the upgrade's
      slot the candidate, so that the candidate can be removed without harm. */
  lemma {:induction false} RollbackRestores(e: Env, img: Image, m: int)
    requires Good(e, img, m) && Confirmation(e, img, m).Some? && Newest(e, img, m).Some?
    requires Newest(e, img, m).value.activeSlot != Confirmation(e, img, m).value.activeSlot
    requires RollbackPlan(e, img, m).done
    ensures var images := RollbackPlan(e, img, m).images;
            && |images| == 1 && Newest(e, images[0], m).Some?
            && var r := Newest(e, images[0], m).value;
            && r.state == Rejected && r.failures == Newest(e, img, m).value.failures + 1
            && r.activeSlot == Confirmation(e, img, m).value.activeSlot
            && r.candidateSlot == Newest(e, img, m).value.activeSlot
            && AllKept(e, images[0], RemoveCandidatePlan(e, images[0], m).images, m)
  {
    RollbackKeeps(e, img, m, m);
    hide Append, VerifySlot, Known, Good;
    var r, k := Newest(e, img, m).value, Confirmation(e, img, m).value;
    var c := VerifySlot(e, img, m, k.activeSlot).value;
    SlotIsOwn(e, img, m, k.activeSlot);
    var next := StateRecord(c, Rejected, k.activeSlot, r.activeSlot, Max(r.minVersion, k.minVersion), r.failures + 1);
    GoodIsWhole(e, img, m);
    AppendSpec(e, img, next, m);
    RemoveCandidateKeeps(e, RollbackPlan(e, img, m).images[0], m, m);
  }

  lemma {:induction false} GoodIsWhole(e: Env, img: Image, m: int)
    requires Good(e, img, m)
    ensures Whole(e, img)
  {
  }

  /** A failed initialization counts one more failure against the slot that was running or about to, and
      at the threshold the module can neither be activated nor confirmed any more. */
  lemma {:induction false} FailureQuarantines(e: Env, img: Image, m: int)
    requires Whole(e, img) && InitFailedPlan(e, img, m).done
    ensures Newest(e, img, m).Some?
    ensures var r := Newest(e, img, m).value;
            var images := InitFailedPlan(e, img, m).images;
            && |images| == 1 && Newest(e, images[0], m).Some?
            && var f := Newest(e, images[0], m).value;
            && f.failures == r.failures + 1
            && f.candidateSlot == (if r.state == Active then r.activeSlot else r.candidateSlot)
            && f.activeSlot == ActiveSlotOf(Confirmation(e, img, m))
            && (f.state == Quarantined <==> f.failures >= e.threshold)
            && (f.failures >= e.threshold ==>
                 !ActivatePlan(e, images[0], m).done && ActivatePlan(e, images[0], m).images == [])
            && !ConfirmPlan(e, images[0], m).done && ConfirmPlan(e, images[0], m).images == []
  {
    hide Append, VerifySlot, Known, Whole;
    var r := Newest(e, img, m).value;
    var failing := if r.state == Active then r.activeSlot else r.candidateSlot;
    var c := VerifySlot(e, img, m, failing).value;
    SlotIsOwn(e, img, m, failing);
    var state := if r.failures + 1 >= e.threshold then Quarantined else Rejected;
    AppendSpec(e, img, StateRecord(c, state, ActiveSlotOf(Confirmation(e, img, m)), failing, r.minVersion,
        r.failures + 1), m);
  }

  /** A quarantined module can neither be activated nor confirmed; the record keeps the failure count. */
  lemma {:induction false} QuarantineBlocks(e: Env, img: Image, m: int)
    requires Whole(e, img) && QuarantinePlan(e, img, m).done
    ensures Newest(e, img, m).Some?
    ensures var r := Newest(e, img, m).value;
            var images := QuarantinePlan(e, img, m).images;
            && |images| == 1 && Newest(e, images[0], m).Some?
            && var q := Newest(e, images[0], m).value;
            && q.state == Quarantined && q.failures == r.failures
            && q.activeSlot == ActiveSlotOf(Confirmation(e, img, m))
            && q.candidateSlot == (if r.candidateSlot != SLOT_NONE then r.candidateSlot else r.activeSlot)
            && !ActivatePlan(e, images[0], m).done && ActivatePlan(e, images[0], m).images == []
            && !ConfirmPlan(e, images[0], m).done && ConfirmPlan(e, images[0], m).images == []
  {
    hide Append, VerifySlot, Known, Whole;
    var r := Newest(e, img, m).value;
    var slot := if r.candidateSlot != SLOT_NONE then r.candidateSlot else r.activeSlot;
    var c := VerifySlot(e, img, m, slot).value;
    SlotIsOwn(e, img, m, slot);
    AppendSpec(e, img, StateRecord(c, Quarantined, ActiveSlotOf(Confirmation(e, img, m)), slot, r.minVersion,
        r.failures), m);
  }

  lemma {:induction false} CheckedSigner(e: Env, img: Image, m: int, slot: int)
    requires VerifySlot(e, img, m, slot).Some?
    ensures VerifySlot(e, img, m, slot).value.signer == e.signer
  {
    hide Known;
  }

  /** No installation of this module is under way, and the version is new. */
  predicate Admissible(e: Env, img: Image, id: int, version: int) {
    && (Newest(e, img, id).Some? ==>
         Newest(e, img, id).value.state != Pending && Newest(e, img, id).value.state != Active)
    && (FloorOf(e, img, id) == 0 || FloorOf(e, img, id) < version)
  }

  /** A checked package of module m is in its candidate slot, beside the confirmed one. */
  predicate Ready(e: Env, img: Image, m: int, state: State, active: int, candidate: int, version: int) {
    && Whole(e, img)
    && Newest(e, img, m).Some? && Newest(e, img, m).value.state == state
    && Newest(e, img, m).value.activeSlot == active && Newest(e, img, m).value.candidateSlot == candidate
    && IsSlot(active) && IsU32(Newest(e, img, m).value.failures) && IsU32(Newest(e, img, m).value.minVersion)
    && (candidate == SLOT_A || candidate == SLOT_B)
    && (m, candidate) in img.slots && e.parse(img.slots[(m, candidate)]).Some?
    && var meta := e.parse(img.slots[(m, candidate)]).value;
    && meta.moduleId == m && meta.version == version && (meta.moduleType == 1 || meta.moduleType == 2)
    && FloorOf(e, img, m) <= version
  }

  /** A package that verifies is installed exactly if no installation is under way, its version is new
      and two sequence numbers are left.  It is then ready in the candidate slot. */
  lemma {:induction false} InstallExactly(e: Env, img: Image, package: seq<u8>)
    requires EnvOk(e) && VerifyPackage(e, Known(e, img), package, None).Some?
    requires Good(e, img, VerifyPackage(e, Known(e, img), package, None).value.moduleId)
    ensures var c := VerifyPackage(e, Known(e, img), package, None).value;
            var plan := InstallPlan(e, img, package);
            && (plan.done <==> Admissible(e, img, c.moduleId, c.version) && LastSequence(e, img) <= 0xFFFFFFFD)
            && (plan.done ==>
                  && |plan.images| == 3
                  && var active := ActiveSlotOf(Confirmation(e, img, c.moduleId));
                  && Ready(e, plan.images[2], c.moduleId, Verified, active, CandidateFor(active), c.version)
                  && Confirmation(e, plan.images[2], c.moduleId) == Confirmation(e, img, c.moduleId)
                  && SignerOk(e, plan.images[2])
                  && plan.images[2].slots[(c.moduleId, CandidateFor(active))] == package
                  && LastSequence(e, plan.images[2]) == LastSequence(e, img) + 2)
  {
    hide Append, Known, Whole, EnvOk, CurrentPackage, Good, WellFormed, VerifyPackage, VerifySlot;
    var c := VerifyPackage(e, Known(e, img), package, None).value;
    var m := c.moduleId;
    var active, floor := ActiveSlotOf(Confirmation(e, img, m)), FloorOf(e, img, m);
    var candidate := CandidateFor(active);
    var first := StateRecord(c, Receiving, active, candidate, floor, 0);
    var second := StateRecord(c, Verified, active, candidate, floor, 0);
    InstallRecords(e, img, package, Receiving);
    InstallRecords(e, img, package, Verified);
    AppendSucceeds(e, img, first);
    if Append(e, img, first).Some? {
      AppendSpec(e, img, first, m);
      var received := Append(e, img, first).value;
      var written := received.(slots := received.slots[(m, candidate) := package]);
      SameCatalog(e, received, written);
      StillVerifies(e, img, written, package, candidate);
      AppendSucceeds(e, written, second);
      if Append(e, written, second).Some? {
        AppendSpec(e, written, second, m);
      }
    }
  }

  /** The records that an installation writes are well formed. */
  lemma {:induction false} InstallRecords(e: Env, img: Image, package: seq<u8>, state: State)
    requires EnvOk(e) && VerifyPackage(e, Known(e, img), package, None).Some?
    requires Good(e, img, VerifyPackage(e, Known(e, img), package, None).value.moduleId)
    ensures var c := VerifyPackage(e, Known(e, img), package, None).value;
            var active := ActiveSlotOf(Confirmation(e, img, c.moduleId));
            && Whole(e, img) && IsSlot(active) && IsU32(FloorOf(e, img, c.moduleId))
            && FloorOf(e, img, c.moduleId) <= c.version
            && var r := StateRecord(c, state, active, CandidateFor(active), FloorOf(e, img, c.moduleId), 0);
            && WellFormed(r.(sequence := 1))
  {
    var c := VerifyPackage(e, Known(e, img), package, None).value;
    KnownWellFormed(e, img, c.moduleId);
    EnvGives(e, package);
    hide Known, Whole, EnvOk;
  }

  /** A package keeps its check result while floors and revocations stay the same. */
  lemma {:induction false} StillVerifies(e: Env, img: Image, next: Image, package: seq<u8>, slot: int)
    requires VerifyPackage(e, Known(e, img), package, None).Some?
    requires var m := VerifyPackage(e, Known(e, img), package, None).value.moduleId;
             && IsSlotKey(slot) && (m, slot) in next.slots && next.slots[(m, slot)] == package
             && FloorOf(e, next, m) == FloorOf(e, img, m)
    requires Known(e, next).revoked == Known(e, img).revoked
    ensures var c := VerifyPackage(e, Known(e, img), package, None).value;
            && VerifySlot(e, next, c.moduleId, slot) == Some(c) && SignerOk(e, next)
            && e.parse(package).Some?
            && var meta := e.parse(package).value;
            && meta.moduleId == c.moduleId && meta.version == c.version
            && (meta.moduleType == 1 || meta.moduleType == 2)
  {
    hide Known;
  }

  predicate EnvFacts(e: Env, package: seq<u8>) {
    && |e.signer| == 16 && |e.sha(package)| == 32
    && (e.parse(package).Some? ==>
          && IsU32(e.parse(package).value.moduleId) && IsU32(e.parse(package).value.version)
          && e.parse(package).value.moduleId != 0 && e.parse(package).value.version != 0)
  }

  lemma {:induction false} EnvGives(e: Env, package: seq<u8>)
    requires EnvOk(e)
    ensures EnvFacts(e, package)
  {
  }

  /** The newest record of module m runs the package in a slot. */
  predicate Running(e: Env, img: Image, m: int, slot: int, package: seq<u8>) {
    && Whole(e, img)
    && Newest(e, img, m).Some? && Newest(e, img, m).value.state == Active && Newest(e, img, m).value.activeSlot == slot
    && (slot == SLOT_A || slot == SLOT_B)
    && (m, slot) in img.slots && img.slots[(m, slot)] == package && e.parse(package).Some?
    && var meta := e.parse(package).value;
    && meta.moduleId == m && (meta.moduleType == 1 || meta.moduleType == 2) && FloorOf(e, img, m) <= meta.version
  }

  /** A running module is confirmed exactly if its signer is accepted and a sequence number is left.  Its
      package is then the confirmed one, and its version the floor. */
  lemma {:induction false} ConfirmExactly(e: Env, img: Image, m: int, slot: int, package: seq<u8>)
    requires EnvOk(e) && Running(e, img, m, slot, package)
    ensures var plan := ConfirmPlan(e, img, m);
            && (plan.done <==> SignerOk(e, img) && LastSequence(e, img) < 0xFFFFFFFF)
            && (plan.done ==>
                  && |plan.images| == 1 && plan.images[0].slots == img.slots
                  && CurrentPackage(e, plan.images[0], m) == Some(package)
                  && Newest(e, plan.images[0], m) == Confirmation(e, plan.images[0], m)
                  && Confirmation(e, plan.images[0], m).Some?
                  && Confirmation(e, plan.images[0], m).value.activeSlot == slot
                  && Confirmation(e, plan.images[0], m).value.state == Confirmed
                  && FloorOf(e, plan.images[0], m) == e.parse(package).value.version
                  && SignerOk(e, plan.images[0])
                  && LastSequence(e, plan.images[0]) == LastSequence(e, img) + 1)
  {
    KnownBelowFloor(e, img, m);
    KnownWellFormed(e, img, m);
    EnvGives(e, package);
    hide Append, Known, Whole, EnvOk;
    var r := Newest(e, img, m).value;
    assert VerifySlot(e, img, m, slot).Some? <==> SignerOk(e, img);
    if SignerOk(e, img) {
      var c := VerifySlot(e, img, m, slot).value;
      var next := StateRecord(c, Confirmed, slot, SLOT_NONE, Max(r.minVersion, c.version), 0);
      AppendSucceeds(e, img, next);
      if Append(e, img, next).Some? {
        AppendSpec(e, img, next, m);
      }
    }
  }

  /** A module that is ready is activated exactly if its signer is accepted and two sequence numbers are
      left.  The newest record then has the two slots exchanged. */
  lemma {:induction false} ActivateExactly(e: Env, img: Image, m: int, active: int, candidate: int, version: int)
    requires EnvOk(e) && Ready(e, img, m, Verified, active, candidate, version)
    ensures var plan := ActivatePlan(e, img, m);
            && (plan.done <==> SignerOk(e, img) && LastSequence(e, img) <= 0xFFFFFFFD)
            && (plan.done ==>
                  && |plan.images| == 2 && plan.images[1].slots == img.slots
                  && Newest(e, plan.images[1], m).Some?
                  && Newest(e, plan.images[1], m).value.activeSlot == candidate
                  && Newest(e, plan.images[1], m).value.candidateSlot == active
                  && Newest(e, plan.images[1], m).value.state == Active
                  && Confirmation(e, plan.images[1], m) == Confirmation(e, img, m)
                  && Running(e, plan.images[1], m, candidate, img.slots[(m, candidate)])
                  && SignerOk(e, plan.images[1])
                  && LastSequence(e, plan.images[1]) == LastSequence(e, img) + 2)
  {
    KnownBelowFloor(e, img, m);
    hide Append, Known, Whole, EnvOk, CurrentPackage;
    assert EnvFacts(e, img.slots[(m, candidate)]) by { EnvGives(e, img.slots[(m, candidate)]); }
    var r := Newest(e, img, m).value;
    assert VerifySlot(e, img, m, candidate).Some? <==> SignerOk(e, img);
    if SignerOk(e, img) {
      var c := VerifySlot(e, img, m, candidate).value;
      var first := StateRecord(c, Pending, active, candidate, r.minVersion, r.failures);
      AppendSucceeds(e, img, first);
      if Append(e, img, first).Some? {
        AppendSpec(e, img, first, m);
        var pending := Append(e, img, first).value;
        var second := StateRecord(c, Active, candidate, active, r.minVersion, r.failures);
        AppendSucceeds(e, pending, second);
        if Append(e, pending, second).Some? {
          AppendSpec(e, pending, second, m);
        }
      }
    }
  }

  /** The case that the removal condition shuts out is reached by every upgrade: installing and
      activating a new version over a confirmed one and then removing the candidate erases the
      confirmed package. */
  lemma {:induction false} UpgradeThenRemove(e: Env, img: Image, package: seq<u8>)
    requires EnvOk(e) && VerifyPackage(e, Known(e, img), package, None).Some?
    requires var c := VerifyPackage(e, Known(e, img), package, None).value;
             Good(e, img, c.moduleId) && Confirmation(e, img, c.moduleId).Some?
                 && Admissible(e, img, c.moduleId, c.version)
    requires LastSequence(e, img) <= 0xFFFFFFFB
    ensures var m := VerifyPackage(e, Known(e, img), package, None).value.moduleId;
            var installed := InstallPlan(e, img, package);
            && installed.done && |installed.images| == 3
            && var activated := ActivatePlan(e, installed.images[2], m);
            && activated.done && |activated.images| == 2
            && CurrentPackage(e, activated.images[1], m) == CurrentPackage(e, img, m) && CurrentPackage(e, img, m).Some?
            && |RemoveCandidatePlan(e, activated.images[1], m).images| > 0
            && CurrentPackage(e, RemoveCandidatePlan(e, activated.images[1], m).images[0], m) == None
  {
    hide Known, Append, CurrentPackage, Good, VerifyPackage, InstallPlan, ActivatePlan;
    var c := VerifyPackage(e, Known(e, img), package, None).value;
    var m := c.moduleId;
    InstallExactly(e, img, package);
    var installed := InstallPlan(e, img, package).images;
    InstallKeeps(e, img, package, m);
    var active := ActiveSlotOf(Confirmation(e, img, m));
    ActivateExactly(e, installed[2], m, active, CandidateFor(active), c.version);
    ActivateKeeps(e, installed[2], m, m);
    var upgraded := ActivatePlan(e, installed[2], m).images[1];
    KeptTransitive(e, img, installed[2], upgraded, m);
    LosesPackage(e, upgraded, m);
  }

  lemma {:induction false} LosesPackage(e: Env, img: Image, m: int)
    requires Good(e, img, m) && Newest(e, img, m).Some? && Confirmation(e, img, m).Some?
    requires Newest(e, img, m).value.candidateSlot == Confirmation(e, img, m).value.activeSlot
    ensures CurrentPackage(e, img, m).Some?
    ensures |RemoveCandidatePlan(e, img, m).images| > 0
    ensures CurrentPackage(e, RemoveCandidatePlan(e, img, m).images[0], m) == None
  {
    var r := Newest(e, img, m).value;
    var erased := RemoveCandidatePlan(e, img, m).images[0];
    assert erased == img.(slots := img.slots - {(m, r.candidateSlot)});
    SameCatalog(e, img, erased);
    hide Known, Append, VerifySlot;
  }
}
