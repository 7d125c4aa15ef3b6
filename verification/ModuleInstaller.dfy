/**
  The installer itself, working on simulated flash that can lose power after any persistent write.
  Each operation is proved to leave exactly the image that its plan of writes, cut where power is
  lost, leaves.
 */
module ModuleInstallers {
  import opened Common
  import opened Limbs
  import opened InstallCatalog
  import opened InstallSteps
  import opened InstallSafety

  datatype Outcome = Done | Refused | PowerLost

  /** The image and the outcome of a plan when power is lost after some number of writes, or never */
  function Ended(was: Image, plan: Plan, limit: Option<nat>): (Image, Outcome) {
    if limit.Some? && 1 <= limit.value <= |plan.images| then (plan.images[limit.value - 1], PowerLost)
    else (Cut(was, plan.images, |plan.images|), if plan.done then Done else Refused)
  }

  /** Ending a plan is one of the events that the run theorems speak about. */
  lemma {:induction false} EndedIsEvent(e: Env, img: Image, op: Op, limit: Option<nat>)
    ensures exists writes :: Ended(img, PlanOf(e, img, op), limit).0 == After(e, img, Event(op, writes))
  {
    var plan := PlanOf(e, img, op);
    hide PlanOf;
    var writes := if limit.Some? && 1 <= limit.value <= |plan.images| then limit.value else |plan.images|;
    assert Ended(img, plan, limit).0 == After(e, img, Event(op, writes));
  }

  class SimulatedFlash {
    var catalog: seq<u8>
    var slots: map<(int, int), seq<u8>>
    var failAfter: Option<nat>
    var writeCount: nat

    constructor ()
      ensures Contents() == EMPTY_FLASH && failAfter == None
    {
      catalog, slots, failAfter, writeCount := [], map[], None, 0;
    }

    function Contents(): Image
      reads this`catalog, this`slots
    {
      Image(catalog, slots)
    }

    /** How many more writes there are until power is lost */
    function Limit(): Option<nat>
      reads this`failAfter, this`writeCount
    {
      if failAfter.Some? && failAfter.value > writeCount then Some(failAfter.value - writeCount) else None
    }

    method SetPowerLossAfter(writes: Option<nat>)
      modifies this`failAfter, this`writeCount
      ensures Limit() == if writes == Some(0) then None else writes
    {
      failAfter, writeCount := writes, 0;
    }

    method AfterPersistentWrite() returns (lost: bool)
      modifies this`writeCount
      ensures writeCount == old(writeCount) + 1
      ensures lost <==> old(Limit()) == Some(1)
    {
      writeCount := writeCount + 1;
      lost := failAfter == Some(writeCount);
    }

    method AppendCatalog(record: seq<u8>) returns (lost: bool)
      modifies this`catalog, this`writeCount
      ensures catalog == old(catalog) + record && writeCount == old(writeCount) + 1
      ensures lost <==> old(Limit()) == Some(1)
    {
      catalog := catalog + record;
      lost := AfterPersistentWrite();
    }

    method WriteSlot(m: int, slot: int, package: seq<u8>) returns (o: Outcome)
      modifies this`slots, this`writeCount
      ensures !IsSlotKey(slot) ==> o == Refused && slots == old(slots) && writeCount == old(writeCount)
      ensures IsSlotKey(slot) ==>
        && slots == old(slots)[(m, slot) := package] && writeCount == old(writeCount) + 1
        && o == if old(Limit()) == Some(1) then PowerLost else Done
    {
      if !IsSlotKey(slot) {
        return Refused;
      }
      slots := slots[(m, slot) := package];
      var lost := AfterPersistentWrite();
      o := if lost then PowerLost else Done;
    }

    method EraseSlot(m: int, slot: int) returns (o: Outcome)
      modifies this`slots, this`writeCount
      ensures !IsSlotKey(slot) ==> o == Refused && slots == old(slots) && writeCount == old(writeCount)
      ensures IsSlotKey(slot) ==>
        && slots == old(slots) - {(m, slot)} && writeCount == old(writeCount) + 1
        && o == if old(Limit()) == Some(1) then PowerLost else Done
    {
      if !IsSlotKey(slot) {
        return Refused;
      }
      slots := slots - {(m, slot)};
      var lost := AfterPersistentWrite();
      o := if lost then PowerLost else Done;
    }

    /** The content of a slot; other slot numbers are refused. */
    method ReadSlot(m: int, slot: int) returns (ok: bool, package: Option<seq<u8>>)
      ensures ok <==> IsSlotKey(slot)
      ensures package == if ok && (m, slot) in slots then Some(slots[(m, slot)]) else None
    {
      ok := IsSlotKey(slot);
      package := if ok && (m, slot) in slots then Some(slots[(m, slot)]) else None;
    }
  }

  class ModuleInstaller {
    const env: Env
    const flash: SimulatedFlash

    constructor (env: Env, flash: SimulatedFlash)
      ensures this.env == env && this.flash == flash
    {
      this.env, this.flash := env, flash;
    }

    method Recover() returns (records: seq<Record>, view: View)
      ensures records == Recs(env, flash.Contents()) && view == Known(env, flash.Contents())
    {
      records, view := RecoverCatalog(env.crc, flash.catalog);
    }

    method VerifySlotOrFail(m: int, slot: int) returns (c: Option<Checked>)
      ensures c == VerifySlot(env, flash.Contents(), m, slot)
    {
      if slot == SLOT_NONE {
        return None;
      }
      var ok, package := flash.ReadSlot(m, slot);
      if !ok || package.None? {
        return None;
      }
      var _, view := Recover();
      c := VerifyPackage(env, view, package.value, Some(m));
    }

    method NextNumber() returns (n: Option<int>)
      ensures n == NextSequence(Recs(env, flash.Contents()))
    {
      var records, _ := Recover();
      if records == [] {
        return Some(1);
      }
      var highest := 0;
      for i := 0 to |records|
        invariant highest == MaxSequence(records[..i])
      {
        assert records[..i + 1][..i] == records[..i];
        highest := Max(highest, records[i].sequence);
      }
      assert records[..|records|] == records;
      n := if highest >= 0xFFFFFFFF then None else Some(highest + 1);
    }

    method AppendRecord(r: Record) returns (o: Outcome)
      modifies flash`catalog, flash`writeCount
      ensures var next := Append(env, old(flash.Contents()), r);
              if next.None? then
                o == Refused && flash.Contents() == old(flash.Contents()) && flash.writeCount == old(flash.writeCount)
              else
                && flash.Contents() == next.value && flash.writeCount == old(flash.writeCount) + 1
                && o == if old(flash.Limit()) == Some(1) then PowerLost else Done
    {
      hide Records, EncodeRecord;
      var n := NextNumber();
      if n.None? {
        return Refused;
      }
      var bytes := EncodeRecord(env.crc, r.(sequence := n.value));
      if bytes.None? {
        return Refused;
      }
      var lost := flash.AppendCatalog(bytes.value);
      o := if lost then PowerLost else Done;
    }

    method Install(package: seq<u8>) returns (o: Outcome)
      modifies flash`catalog, flash`slots, flash`writeCount
      ensures (flash.Contents(), o)
           == Ended(old(flash.Contents()), InstallPlan(env, old(flash.Contents()), package), old(flash.Limit()))
    {
      hide Known, Append, VerifyPackage, VerifySlot, StateRecord;
      var _, view := Recover();
      var verified := VerifyPackage(env, view, package, None);
      if verified.None? {
        return Refused;
      }
      var c := verified.value;
      var current := Lookup(view.latest, c.moduleId);
      if current.Some? && (current.value.state == Pending || current.value.state == Active) {
        return Refused;
      }
      var active := ActiveSlotOf(Lookup(view.confirmed, c.moduleId));
      var candidate := CandidateFor(active);
      var floor := Floor(view, c.moduleId);
      if floor != 0 && c.version <= floor {
        return Refused;
      }
      o := AppendRecord(StateRecord(c, Receiving, active, candidate, floor, 0));
      if o != Done {
        return;
      }
      o := flash.WriteSlot(c.moduleId, candidate, package);
      if o != Done {
        return;
      }
      var again := VerifySlotOrFail(c.moduleId, candidate);
      if again.None? {
        return Refused;
      }
      o := AppendRecord(StateRecord(c, Verified, active, candidate, floor, 0));
    }

    method Activate(m: int) returns (o: Outcome)
      modifies flash`catalog, flash`writeCount
      ensures (flash.Contents(), o)
           == Ended(old(flash.Contents()), ActivatePlan(env, old(flash.Contents()), m), old(flash.Limit()))
    {
      hide Known, Append, VerifySlot, StateRecord;
      var _, view := Recover();
      var latest := Lookup(view.latest, m);
      if latest.None? || (latest.value.state != Verified && latest.value.state != Rejected) {
        return Refused;
      }
      var r := latest.value;
      var verified := VerifySlotOrFail(m, r.candidateSlot);
      if verified.None? {
        return Refused;
      }
      o := AppendRecord(StateRecord(verified.value, Pending, r.activeSlot, r.candidateSlot, r.minVersion, r.failures));
      if o != Done {
        return;
      }
      o := AppendRecord(StateRecord(verified.value, Active, r.candidateSlot, r.activeSlot, r.minVersion, r.failures));
    }

    method Confirm(m: int) returns (o: Outcome)
      modifies flash`catalog, flash`writeCount
      ensures (flash.Contents(), o)
           == Ended(old(flash.Contents()), ConfirmPlan(env, old(flash.Contents()), m), old(flash.Limit()))
    {
      hide Known, Append, VerifySlot, StateRecord;
      var _, view := Recover();
      var latest := Lookup(view.latest, m);
      if latest.None? || latest.value.state != Active {
        return Refused;
      }
      var r := latest.value;
      var verified := VerifySlotOrFail(m, r.activeSlot);
      if verified.None? {
        return Refused;
      }
      var minVersion := Max(r.minVersion, verified.value.version);
      o := AppendRecord(StateRecord(verified.value, Confirmed, r.activeSlot, SLOT_NONE, minVersion, 0));
    }

    method Rollback(m: int) returns (o: Outcome)
      modifies flash`catalog, flash`writeCount
      ensures (flash.Contents(), o)
           == Ended(old(flash.Contents()), RollbackPlan(env, old(flash.Contents()), m), old(flash.Limit()))
    {
      hide Known, Append, VerifySlot, StateRecord;
      var _, view := Recover();
      var latest, confirmed := Lookup(view.latest, m), Lookup(view.confirmed, m);
      if latest.None? || confirmed.None? {
        return Refused;
      }
      var r, k := latest.value, confirmed.value;
      var verified := VerifySlotOrFail(m, k.activeSlot);
      if verified.None? {
        return Refused;
      }
      var candidate := if r.activeSlot != k.activeSlot then r.activeSlot else r.candidateSlot;
      o := AppendRecord(StateRecord(verified.value, Rejected, k.activeSlot, candidate, Max(r.minVersion, k.minVersion),
          r.failures + 1));
    }

    method RecordInitializationResult(m: int, success: bool) returns (o: Outcome)
      modifies flash`catalog, flash`writeCount
      ensures !success ==>
        (flash.Contents(), o)
        == Ended(old(flash.Contents()), InitFailedPlan(env, old(flash.Contents()), m), old(flash.Limit()))
      ensures success ==> flash.Contents() == old(flash.Contents()) && flash.writeCount == old(flash.writeCount)
      ensures var latest := Newest(env, flash.Contents(), m);
        success ==> (o == Done <==> latest.Some? && (latest.value.state == Pending || latest.value.state == Active))
      ensures success ==> o != PowerLost
    {
      hide Known, Append, VerifySlot, StateRecord;
      var _, view := Recover();
      var latest := Lookup(view.latest, m);
      if latest.None? || (latest.value.state != Pending && latest.value.state != Active) {
        return Refused;
      }
      if success {
        return Done;
      }
      var r := latest.value;
      var active := ActiveSlotOf(Lookup(view.confirmed, m));
      var failing := if r.state == Active then r.activeSlot else r.candidateSlot;
      var verified := VerifySlotOrFail(m, failing);
      if verified.None? {
        return Refused;
      }
      var failures := r.failures + 1;
      var state := if failures >= env.threshold then Quarantined else Rejected;
      o := AppendRecord(StateRecord(verified.value, state, active, failing, r.minVersion, failures));
    }

    method Quarantine(m: int) returns (o: Outcome)
      modifies flash`catalog, flash`writeCount
      ensures (flash.Contents(), o)
           == Ended(old(flash.Contents()), QuarantinePlan(env, old(flash.Contents()), m), old(flash.Limit()))
    {
      hide Known, Append, VerifySlot, StateRecord;
      var _, view := Recover();
      var latest := Lookup(view.latest, m);
      if latest.None? {
        return Refused;
      }
      var r := latest.value;
      var slot := if r.candidateSlot != SLOT_NONE then r.candidateSlot else r.activeSlot;
      var verified := VerifySlotOrFail(m, slot);
      if verified.None? {
        return Refused;
      }
      var active := ActiveSlotOf(Lookup(view.confirmed, m));
      o := AppendRecord(StateRecord(verified.value, Quarantined, active, slot, r.minVersion, r.failures));
    }

    method RemoveCandidate(m: int) returns (o: Outcome)
      modifies flash`catalog, flash`slots, flash`writeCount
      ensures (flash.Contents(), o)
           == Ended(old(flash.Contents()), RemoveCandidatePlan(env, old(flash.Contents()), m), old(flash.Limit()))
    {
      hide Known, Append, VerifySlot, StateRecord;
      var _, view := Recover();
      var latest := Lookup(view.latest, m);
      if latest.None? {
        return Refused;
      }
      var r := latest.value;
      if r.candidateSlot == SLOT_NONE {
        return Done;
      }
      KnownWellFormed(env, flash.Contents(), m);
      o := flash.EraseSlot(m, r.candidateSlot);
      if o != Done {
        return;
      }
      SameCatalog(env, old(flash.Contents()), flash.Contents());
      var _, after := Recover();
      var confirmed := Lookup(after.confirmed, m);
      if confirmed.Some? {
        var verified := VerifySlotOrFail(m, confirmed.value.activeSlot);
        if verified.None? {
          return Refused;
        }
        o := AppendRecord(StateRecord(verified.value, Confirmed, confirmed.value.activeSlot, SLOT_NONE, r.minVersion,
            0));
      } else {
        o := AppendRecord(r.(state := Empty, activeSlot := SLOT_NONE, candidateSlot := SLOT_NONE, result := 0));
      }
    }

    method RevokeSigner(signer: seq<u8>) returns (o: Outcome)
      modifies flash`catalog, flash`writeCount
      ensures (flash.Contents(), o)
           == Ended(old(flash.Contents()), RevokePlan(env, old(flash.Contents()), signer), old(flash.Limit()))
    {
      hide Append;
      if |signer| != 16 {
        return Refused;
      }
      o := AppendRecord(Record(KIND_REVOCATION, 0, 0, 0, 0, Empty, SLOT_NONE, SLOT_NONE, 0, 0, signer, ZeroBytes(32)));
    }

    /** The confirmed package, if it is there and unchanged.  A confirmed record without a slot is an error. */
    method CurrentConfirmedPackage(m: int) returns (ok: bool, package: Option<seq<u8>>)
      ensures ok <==> SlotKnown(env, flash.Contents(), m)
      ensures package == if ok then CurrentPackage(env, flash.Contents(), m) else None
    {
      var _, view := Recover();
      var confirmed := Lookup(view.confirmed, m);
      if confirmed.None? {
        return true, None;
      }
      ok, package := flash.ReadSlot(m, confirmed.value.activeSlot);
      if package.None? || env.sha(package.value) != confirmed.value.fingerprint {
        package := None;
      }
    }
  }

  /** The confirmed record of a module, if there is one, names one of the two slots. */
  predicate SlotKnown(e: Env, img: Image, m: int) {
    Confirmation(e, img, m).Some? ==> IsSlotKey(Confirmation(e, img, m).value.activeSlot)
  }

  /** In every run from empty flash that is careful with removals, asking for the confirmed package is
      never an error. */
  lemma {:induction false} NeverAnError(e: Env, evs: seq<Event>, m: int)
    requires EnvOk(e) && CarefulRun(e, EMPTY_FLASH, evs, m)
    ensures SlotKnown(e, Run(e, EMPTY_FLASH, evs), m)
  {
    hide Run, CarefulRun;
    assert Good(e, EMPTY_FLASH, m);
    RunRaises(e, EMPTY_FLASH, evs, m);
  }
}
