/**
  The operations of the A/B module installer as the persistent writes they make, one after the
  other, on a flash image.  Power can be lost after any of them.
 */
module InstallSteps {
  import opened Common
  import opened Limbs
  import opened InstallCatalog

  /** What a package declares about itself, once its format, hash and signature check out */
  datatype Meta = Meta(moduleId: int, version: int, moduleType: int)

  /** The installer's fixed surroundings: checksum, hash, package check, signer and policy */
  datatype Env = Env(crc: Checksum, sha: seq<u8> -> seq<u8>, parse: seq<u8> -> Option<Meta>,
                     signer: seq<u8>, firmwareKey: Option<seq<u8>>, threshold: int)

  /** Hashes and key ids have their fixed sizes, accepted packages have a nonzero identity, and no
      proper prefix of an accepted package is accepted (a package states its own length). */
  ghost predicate EnvOk(e: Env) {
    && |e.signer| == 16
    && (forall p :: |e.sha(p)| == 32)
    && (forall p :: e.parse(p).Some? ==>
          IsU32(e.parse(p).value.moduleId) && IsU32(e.parse(p).value.version)
          && e.parse(p).value.moduleId != 0 && e.parse(p).value.version != 0)
    && (forall p, k | 0 <= k < |p| && e.parse(p).Some? :: e.parse(p[..k]).None?)
  }

  datatype Image = Image(catalog: seq<u8>, slots: map<(int, int), seq<u8>>)

  function Recs(e: Env, img: Image): seq<Record> {
    Records(e.crc, img.catalog)
  }

  function Known(e: Env, img: Image): View {
    ViewOf(Recs(e, img))
  }

  // ----- package checks

  datatype Checked = Checked(moduleId: int, version: int, signer: seq<u8>, fingerprint: seq<u8>)

  function VerifyPackage(e: Env, v: View, package: seq<u8>, expected: Option<int>): Option<Checked> {
    if e.signer in v.revoked || e.firmwareKey == Some(e.signer) then None
    else
      match e.parse(package)
      case None => None
      case Some(meta) =>
        if meta.moduleType != 1 && meta.moduleType != 2 then None
        else if expected.Some? && meta.moduleId != expected.value then None
        else if meta.version < Floor(v, meta.moduleId) then None
        else Some(Checked(meta.moduleId, meta.version, e.signer, e.sha(package)))
  }

  /** The package in a slot of a module, checked; missing slots and packages are refused. */
  function VerifySlot(e: Env, img: Image, m: int, slot: int): Option<Checked> {
    if !IsSlotKey(slot) || (m, slot) !in img.slots then None
    else VerifyPackage(e, Known(e, img), img.slots[(m, slot)], Some(m))
  }

  // ----- single writes

  function MaxSequence(rs: seq<Record>): int {
    if rs == [] then 0 else Max(MaxSequence(rs[..|rs| - 1]), rs[|rs| - 1].sequence)
  }

  function NextSequence(rs: seq<Record>): Option<int> {
    if rs == [] then Some(1)
    else if MaxSequence(rs) >= 0xFFFFFFFF then None
    else Some(MaxSequence(rs) + 1)
  }

  /** Appends a record under the next sequence number; nothing is written if it is refused. */
  function Append(e: Env, img: Image, r: Record): Option<Image> {
    match NextSequence(Recs(e, img))
    case None => None
    case Some(n) =>
      match EncodeRecord(e.crc, r.(sequence := n))
      case None => None
      case Some(bytes) => Some(img.(catalog := img.catalog + bytes))
  }

  function StateRecord(c: Checked, state: State, active: int, candidate: int, minVersion: int, failures: int): Record {
    Record(KIND_STATE, 0, c.moduleId, c.version, minVersion, state, active, candidate, failures, 0, c.signer,
        c.fingerprint)
  }

  // ----- operations

  datatype Op =
    | Install(package: seq<u8>)
    | Activate(m: int)
    | Confirm(m: int)
    | Rollback(m: int)
    | InitFailed(m: int)
    | Quarantine(m: int)
    | RemoveCandidate(m: int)
    | Revoke(signer: seq<u8>)

  /** The images after each write, and whether the operation ends without an error */
  datatype Plan = Plan(images: seq<Image>, done: bool)

  function OneWrite(img: Option<Image>): Plan {
    if img.Some? then Plan([img.value], true) else Plan([], false)
  }

  /** The slot that an installation writes: never the confirmed one */
  function CandidateFor(active: int): int {
    if active == SLOT_NONE || active == SLOT_B then SLOT_A else SLOT_B
  }

  function ActiveSlotOf(confirmed: Option<Record>): int {
    if confirmed.Some? then confirmed.value.activeSlot else SLOT_NONE
  }

  function InstallPlan(e: Env, img: Image, package: seq<u8>): Plan {
    var v := Known(e, img);
    match VerifyPackage(e, v, package, None)
    case None => Plan([], false)
    case Some(c) =>
      var current, active := Lookup(v.latest, c.moduleId), ActiveSlotOf(Lookup(v.confirmed, c.moduleId));
      var candidate, floor := CandidateFor(active), Floor(v, c.moduleId);
      if current.Some? && (current.value.state == Pending || current.value.state == Active) then Plan([], false)
      else if floor != 0 && c.version <= floor then Plan([], false)
      else
        match Append(e, img, StateRecord(c, Receiving, active, candidate, floor, 0))
        case None => Plan([], false)
        case Some(received) =>
          var written := received.(slots := received.slots[(c.moduleId, candidate) := package]);
          if VerifySlot(e, written, c.moduleId, candidate).None? then Plan([received, written], false)
          else
            match Append(e, written, StateRecord(c, Verified, active, candidate, floor, 0))
            case None => Plan([received, written], false)
            case Some(verified) => Plan([received, written, verified], true)
  }

  function ActivatePlan(e: Env, img: Image, m: int): Plan {
    match Lookup(Known(e, img).latest, m)
    case None => Plan([], false)
    case Some(r) =>
      if r.state != Verified && r.state != Rejected then Plan([], false)
      else
        match VerifySlot(e, img, m, r.candidateSlot)
        case None => Plan([], false)
        case Some(c) =>
          match Append(e, img, StateRecord(c, Pending, r.activeSlot, r.candidateSlot, r.minVersion, r.failures))
          case None => Plan([], false)
          case Some(pending) =>
            match Append(e, pending, StateRecord(c, Active, r.candidateSlot, r.activeSlot, r.minVersion, r.failures))
            case None => Plan([pending], false)
            case Some(active) => Plan([pending, active], true)
  }

  function ConfirmPlan(e: Env, img: Image, m: int): Plan {
    match Lookup(Known(e, img).latest, m)
    case None => Plan([], false)
    case Some(r) =>
      if r.state != Active then Plan([], false)
      else
        match VerifySlot(e, img, m, r.activeSlot)
        case None => Plan([], false)
        case Some(c) => OneWrite(Append(e, img, StateRecord(c, Confirmed, r.activeSlot, SLOT_NONE,
            Max(r.minVersion, c.version), 0)))
  }

  function RollbackPlan(e: Env, img: Image, m: int): Plan {
    match (Lookup(Known(e, img).latest, m), Lookup(Known(e, img).confirmed, m))
    case (Some(r), Some(k)) =>
      (match VerifySlot(e, img, m, k.activeSlot)
       case None => Plan([], false)
       case Some(c) =>
         var candidate := if r.activeSlot != k.activeSlot then r.activeSlot else r.candidateSlot;
         OneWrite(Append(e, img, StateRecord(c, Rejected, k.activeSlot, candidate, Max(r.minVersion, k.minVersion),
             r.failures + 1))))
    case _ => Plan([], false)
  }

  function InitFailedPlan(e: Env, img: Image, m: int): Plan {
    match Lookup(Known(e, img).latest, m)
    case None => Plan([], false)
    case Some(r) =>
      if r.state != Pending && r.state != Active then Plan([], false)
      else
        var failing := if r.state == Active then r.activeSlot else r.candidateSlot;
        match VerifySlot(e, img, m, failing)
        case None => Plan([], false)
        case Some(c) =>
          var state := if r.failures + 1 >= e.threshold then Quarantined else Rejected;
          OneWrite(Append(e, img, StateRecord(c, state, ActiveSlotOf(Lookup(Known(e, img).confirmed, m)), failing,
              r.minVersion, r.failures + 1)))
  }

  function QuarantinePlan(e: Env, img: Image, m: int): Plan {
    match Lookup(Known(e, img).latest, m)
    case None => Plan([], false)
    case Some(r) =>
      var slot := if r.candidateSlot != SLOT_NONE then r.candidateSlot else r.activeSlot;
      match VerifySlot(e, img, m, slot)
      case None => Plan([], false)
      case Some(c) =>
        OneWrite(Append(e, img, StateRecord(c, Quarantined, ActiveSlotOf(Lookup(Known(e, img).confirmed, m)), slot,
            r.minVersion, r.failures)))
  }

  function RemoveCandidatePlan(e: Env, img: Image, m: int): Plan {
    match Lookup(Known(e, img).latest, m)
    case None => Plan([], false)
    case Some(r) =>
      if r.candidateSlot == SLOT_NONE then Plan([], true)
      else
        var erased := img.(slots := img.slots - {(m, r.candidateSlot)});
        var next :=
          match Lookup(Known(e, img).confirmed, m)
          case Some(k) =>
            (match VerifySlot(e, erased, m, k.activeSlot)
             case None => None
             case Some(c) => Append(e, erased, StateRecord(c, Confirmed, k.activeSlot, SLOT_NONE, r.minVersion, 0)))
          case None =>
            Append(e, erased, r.(state := Empty, activeSlot := SLOT_NONE, candidateSlot := SLOT_NONE, result := 0));
        if next.Some? then Plan([erased, next.value], true) else Plan([erased], false)
  }

  function RevokePlan(e: Env, img: Image, signer: seq<u8>): Plan {
    if |signer| != 16 then Plan([], false)
    else OneWrite(Append(e, img, Record(KIND_REVOCATION, 0, 0, 0, 0, Empty, SLOT_NONE, SLOT_NONE, 0, 0, signer,
        ZeroBytes(32))))
  }

  function PlanOf(e: Env, img: Image, op: Op): Plan {
    match op
    case Install(package) => InstallPlan(e, img, package)
    case Activate(m) => ActivatePlan(e, img, m)
    case Confirm(m) => ConfirmPlan(e, img, m)
    case Rollback(m) => RollbackPlan(e, img, m)
    case InitFailed(m) => InitFailedPlan(e, img, m)
    case Quarantine(m) => QuarantinePlan(e, img, m)
    case RemoveCandidate(m) => RemoveCandidatePlan(e, img, m)
    case Revoke(signer) => RevokePlan(e, img, signer)
  }

  /** The package that a module is confirmed to run, if it is there and unchanged */
  function CurrentPackage(e: Env, img: Image, m: int): Option<seq<u8>> {
    match Lookup(Known(e, img).confirmed, m)
    case None => None
    case Some(r) =>
      if (m, r.activeSlot) !in img.slots || e.sha(img.slots[(m, r.activeSlot)]) != r.fingerprint then None
      else Some(img.slots[(m, r.activeSlot)])
  }
}
