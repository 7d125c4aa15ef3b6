/**
  What holds of the installer on any flash contents at all, damaged ones included: the catalog only
  grows, so floors and revocations do too, and a revoked signer is locked out of every later run.
 */
module InstallRevocation {
  import opened Common
  import opened Limbs
  import opened InstallCatalog
  import opened InstallSteps
  import opened InstallSafety

  /** The catalogs of all images extend the one before the operation. */
  predicate Growing(was: Image, images: seq<Image>) {
    forall i :: 0 <= i < |images| ==> was.catalog <= images[i].catalog
  }

  lemma {:induction false} AppendGrows(e: Env, img: Image, r: Record)
    ensures Append(e, img, r).Some? ==> img.catalog <= Append(e, img, r).value.catalog
  {
    hide Records, EncodeRecord;
  }

  lemma {:induction false} InstallGrows(e: Env, img: Image, package: seq<u8>)
    ensures Growing(img, InstallPlan(e, img, package).images)
  {
    hide Known, Append, VerifyPackage, VerifySlot, StateRecord, CandidateFor;
    var v, images := Known(e, img), InstallPlan(e, img, package).images;
    if images != [] {
      var c := VerifyPackage(e, v, package, None).value;
      var active := ActiveSlotOf(Lookup(v.confirmed, c.moduleId));
      var candidate, floor := CandidateFor(active), Floor(v, c.moduleId);
      AppendGrows(e, img, StateRecord(c, Receiving, active, candidate, floor, 0));
      if |images| == 3 {
        AppendGrows(e, images[1], StateRecord(c, Verified, active, candidate, floor, 0));
        Longer(img.catalog, images[1].catalog, images[2].catalog);
      }
    }
  }

  lemma {:induction false} Longer(x: seq<u8>, y: seq<u8>, z: seq<u8>)
    requires x <= y <= z
    ensures x <= z
  {
  }

  lemma {:induction false} ActivateGrows(e: Env, img: Image, m: int)
    ensures Growing(img, ActivatePlan(e, img, m).images)
  {
    hide Known, Append, VerifySlot, StateRecord;
    var images := ActivatePlan(e, img, m).images;
    if images != [] {
      var r := Newest(e, img, m).value;
      var c := VerifySlot(e, img, m, r.candidateSlot).value;
      AppendGrows(e, img, StateRecord(c, Pending, r.activeSlot, r.candidateSlot, r.minVersion, r.failures));
      if |images| == 2 {
        AppendGrows(e, images[0], StateRecord(c, Active, r.candidateSlot, r.activeSlot, r.minVersion, r.failures));
        Longer(img.catalog, images[0].catalog, images[1].catalog);
      }
    }
  }

  lemma {:induction false} OneWriteGrows(e: Env, img: Image, r: Record)
    ensures Growing(img, OneWrite(Append(e, img, r)).images)
  {
    hide Append;
    AppendGrows(e, img, r);
  }

  lemma {:induction false} SingleGrows(e: Env, img: Image, m: int)
    ensures Growing(img, ConfirmPlan(e, img, m).images)
    ensures Growing(img, RollbackPlan(e, img, m).images)
    ensures Growing(img, InitFailedPlan(e, img, m).images)
    ensures Growing(img, QuarantinePlan(e, img, m).images)
  {
    hide Known, Append, VerifySlot, StateRecord, OneWrite;
    forall r: Record ensures Growing(img, OneWrite(Append(e, img, r)).images) {
      OneWriteGrows(e, img, r);
    }
  }

  lemma {:induction false} RemoveGrows(e: Env, img: Image, m: int)
    ensures Growing(img, RemoveCandidatePlan(e, img, m).images)
  {
    hide Known, Append, VerifySlot, StateRecord;
    var images := RemoveCandidatePlan(e, img, m).images;
    if |images| == 2 {
      forall r: Record
        ensures Append(e, images[0], r).Some? ==> images[0].catalog <= Append(e, images[0], r).value.catalog
      {
        AppendGrows(e, images[0], r);
      }
    }
  }

  lemma {:induction false} RevokeGrows(e: Env, img: Image, signer: seq<u8>)
    ensures Growing(img, RevokePlan(e, img, signer).images)
  {
    hide Append, OneWrite;
    OneWriteGrows(e, img, Record(KIND_REVOCATION, 0, 0, 0, 0, Empty, SLOT_NONE, SLOT_NONE, 0, 0, signer,
        ZeroBytes(32)));
  }

  lemma {:induction false} EventGrows(e: Env, img: Image, ev: Event)
    ensures img.catalog <= After(e, img, ev).catalog
  {
    hide InstallPlan, ActivatePlan, ConfirmPlan, RollbackPlan;
    hide InitFailedPlan, QuarantinePlan, RemoveCandidatePlan, RevokePlan;
    match ev
    case TornInstall(package, length) => InstallGrows(e, img, package);
    case Event(op, writes) =>
      match op
      case Install(package) => InstallGrows(e, img, package);
      case Activate(m) => ActivateGrows(e, img, m);
      case Confirm(m) => SingleGrows(e, img, m);
      case Rollback(m) => SingleGrows(e, img, m);
      case InitFailed(m) => SingleGrows(e, img, m);
      case Quarantine(m) => SingleGrows(e, img, m);
      case RemoveCandidate(m) => RemoveGrows(e, img, m);
      case Revoke(signer) => RevokeGrows(e, img, signer);
  }

  /** Whatever the flash holds, and however a run is cut, no recovered floor falls and no revocation is
      lifted. */
  lemma {:induction false} RunGrows(e: Env, img: Image, evs: seq<Event>, m: int)
    ensures FloorOf(e, img, m) <= FloorOf(e, Run(e, img, evs), m)
    ensures Known(e, img).revoked <= Known(e, Run(e, img, evs)).revoked
    decreases |evs|
  {
    hide After, Records, ViewOf;
    if evs != [] {
      var next := After(e, img, evs[0]);
      EventGrows(e, img, evs[0]);
      assert next.catalog == img.catalog + next.catalog[|img.catalog|..];
      RecoveryMonotone(e.crc, img.catalog, next.catalog[|img.catalog|..], m);
      RunGrows(e, next, evs[1..], m);
    }
  }

  /** Once the module signer is revoked, no later run installs, activates, confirms, rolls back or
      quarantines anything: these operations write nothing, on any flash contents. */
  lemma {:induction false} RevokedForGood(e: Env, img: Image, evs: seq<Event>, package: seq<u8>, m: int)
    requires e.signer in Known(e, img).revoked
    ensures var later := Run(e, img, evs);
            && InstallPlan(e, later, package) == Plan([], false) && ActivatePlan(e, later, m) == Plan([], false)
            && ConfirmPlan(e, later, m) == Plan([], false) && RollbackPlan(e, later, m) == Plan([], false)
            && InitFailedPlan(e, later, m) == Plan([], false) && QuarantinePlan(e, later, m) == Plan([], false)
  {
    RunGrows(e, img, evs, m);
    hide Known, Append, Run;
  }

  /** A completed revocation of the module signer does revoke it. */
  lemma {:induction false} RevokeRevokes(e: Env, img: Image, signer: seq<u8>)
    requires Whole(e, img) && RevokePlan(e, img, signer).done
    ensures |RevokePlan(e, img, signer).images| == 1 && signer in Known(e, RevokePlan(e, img, signer).images[0]).revoked
  {
    hide Append, Known, Whole;
    AppendSpec(e, img, Record(KIND_REVOCATION, 0, 0, 0, 0, Empty, SLOT_NONE, SLOT_NONE, 0, 0, signer, ZeroBytes(32)),
        0);
  }
}
