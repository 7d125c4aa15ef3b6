/**
  Runs that exist: from empty flash a package gets confirmed, and an upgrade followed by the removal of
  its candidate loses it.
 */
module InstallWitness {
  import opened Common
  import opened Limbs
  import opened InstallCatalog
  import opened InstallSteps
  import opened InstallSafety
  import opened InstallProgress

  /** Installing, activating and confirming a package, each carried through */
  function Rollout(package: seq<u8>, m: int): seq<Event> {
    [Event(Install(package), 3), Event(Activate(m), 2), Event(Confirm(m), 1)]
  }

  lemma {:induction false} RunThree(e: Env, img: Image, a: Event, b: Event, c: Event)
    ensures Run(e, img, [a, b, c]) == After(e, After(e, After(e, img, a), b), c)
  {
    hide After;
    assert [a, b, c][1..] == [b, c] && [b, c][1..] == [c] && [c][1..] == [];
    assert Run(e, After(e, After(e, After(e, img, a), b), c), []) == After(e, After(e, After(e, img, a), b), c);
    assert Run(e, After(e, After(e, img, a), b), [c]) == After(e, After(e, After(e, img, a), b), c);
    assert Run(e, After(e, img, a), [b, c]) == Run(e, After(e, After(e, img, a), b), [c]);
  }

  lemma {:induction false} EmptyIsGood(e: Env, m: int)
    ensures Good(e, EMPTY_FLASH, m) && LastSequence(e, EMPTY_FLASH) == 0
    ensures Confirmation(e, EMPTY_FLASH, m) == None && Newest(e, EMPTY_FLASH, m) == None
      && FloorOf(e, EMPTY_FLASH, m) == 0
    ensures Known(e, EMPTY_FLASH).revoked == {}
  {
  }

  /** On empty flash every package that verifies can be rolled out, and is then the confirmed one. */
  lemma {:induction false} FirstRollout(e: Env, package: seq<u8>)
    requires EnvOk(e) && VerifyPackage(e, Known(e, EMPTY_FLASH), package, None).Some?
    ensures var c := VerifyPackage(e, Known(e, EMPTY_FLASH), package, None).value;
            var img := Run(e, EMPTY_FLASH, Rollout(package, c.moduleId));
            && CurrentPackage(e, img, c.moduleId) == Some(package) && FloorOf(e, img, c.moduleId) == c.version
            && Good(e, img, c.moduleId) && Confirmation(e, img, c.moduleId).Some?
            && Newest(e, img, c.moduleId) == Confirmation(e, img, c.moduleId)
            && Confirmation(e, img, c.moduleId).value.state == Confirmed
            && SignerOk(e, img) && LastSequence(e, img) == 5
  {
    hide Known, Append, CurrentPackage, Good, VerifyPackage, EnvOk, Run, LastSequence, SignerOk;
    hide InstallPlan, ActivatePlan, ConfirmPlan, Ready, Running;
    var c := VerifyPackage(e, Known(e, EMPTY_FLASH), package, None).value;
    var m := c.moduleId;
    EmptyIsGood(e, m);
    InstallExactly(e, EMPTY_FLASH, package);
    var installed := InstallPlan(e, EMPTY_FLASH, package).images[2];
    ActivateExactly(e, installed, m, SLOT_NONE, SLOT_A, c.version);
    var activated := ActivatePlan(e, installed, m).images[1];
    ConfirmExactly(e, activated, m, SLOT_A, package);
    RunThree(e, EMPTY_FLASH, Event(Install(package), 3), Event(Activate(m), 2), Event(Confirm(m), 1));
    InstalledVersion(e, package);
    InstallKeeps(e, EMPTY_FLASH, package, m);
    ActivateKeeps(e, installed, m, m);
    ConfirmRaises(e, activated, m);
  }

  lemma {:induction false} InstalledVersion(e: Env, package: seq<u8>)
    requires VerifyPackage(e, Known(e, EMPTY_FLASH), package, None).Some?
    ensures e.parse(package).Some?
      && e.parse(package).value.version == VerifyPackage(e, Known(e, EMPTY_FLASH), package, None).value.version
  {
    hide Known;
  }

  /** Installing and activating an upgrade, and then removing the candidate; power may be lost right after
      the slot is erased */
  function Downfall(package: seq<u8>, m: int): seq<Event> {
    [Event(Install(package), 3), Event(Activate(m), 2), Event(RemoveCandidate(m), 1)]
  }

  /** Any two packages of a module, of which the second is newer, make a run from empty flash that ends
      with no confirmed package to be read, though the first one was confirmed and never replaced. */
  lemma {:induction false} UpgradeLoses(e: Env, older: seq<u8>, newer: seq<u8>)
    requires EnvOk(e)
    requires VerifyPackage(e, Known(e, EMPTY_FLASH), older, None).Some?
      && VerifyPackage(e, Known(e, EMPTY_FLASH), newer, None).Some?
    requires var c := VerifyPackage(e, Known(e, EMPTY_FLASH), older, None).value;
             var d := VerifyPackage(e, Known(e, EMPTY_FLASH), newer, None).value;
             c.moduleId == d.moduleId && c.version < d.version
    ensures var m := VerifyPackage(e, Known(e, EMPTY_FLASH), older, None).value.moduleId;
            var img := Run(e, EMPTY_FLASH, Rollout(older, m));
            && CurrentPackage(e, img, m) == Some(older)
            && CurrentPackage(e, Run(e, img, Downfall(newer, m)), m) == None
  {
    hide Known, Append, CurrentPackage, Good, VerifyPackage, EnvOk, Run, LastSequence, SignerOk;
    hide InstallPlan, ActivatePlan, RemoveCandidatePlan;
    var c := VerifyPackage(e, Known(e, EMPTY_FLASH), older, None).value;
    var d := VerifyPackage(e, Known(e, EMPTY_FLASH), newer, None).value;
    var m := c.moduleId;
    var img := Run(e, EMPTY_FLASH, Rollout(older, m));
    FirstRollout(e, older);
    NewerVerifies(e, img, newer);
    UpgradeThenRemove(e, img, newer);
    RunThree(e, img, Event(Install(newer), 3), Event(Activate(m), 2), Event(RemoveCandidate(m), 1));
  }

  /** A package that verifies on empty flash verifies wherever the signer does and the floor is not above it. */
  lemma {:induction false} NewerVerifies(e: Env, img: Image, package: seq<u8>)
    requires VerifyPackage(e, Known(e, EMPTY_FLASH), package, None).Some? && SignerOk(e, img)
    requires var d := VerifyPackage(e, Known(e, EMPTY_FLASH), package, None).value;
             FloorOf(e, img, d.moduleId) <= d.version
    ensures VerifyPackage(e, Known(e, img), package, None) == VerifyPackage(e, Known(e, EMPTY_FLASH), package, None)
  {
    hide Known;
  }

  // ----- one such run, with everything spelled out

  const OLD: seq<u8> := [1]
  const NEW: seq<u8> := [2]

  function TwoVersions(p: seq<u8>): Option<Meta> {
    if p == OLD then Some(Meta(7, 1, 1)) else if p == NEW then Some(Meta(7, 2, 1)) else None
  }

  const WITNESS: Env := Env((b: seq<u8>) => 0, (b: seq<u8>) => ZeroBytes(32), TwoVersions, ZeroBytes(16), None, 2)

  /** The confirmed package of module 7 is lost: the removal condition is needed. */
  lemma {:induction false} LostPackage()
    ensures EnvOk(WITNESS)
    ensures var img := Run(WITNESS, EMPTY_FLASH, Rollout(OLD, 7));
            && CurrentPackage(WITNESS, img, 7) == Some(OLD)
            && CurrentPackage(WITNESS, Run(WITNESS, img, Downfall(NEW, 7)), 7) == None
  {
    WitnessIsSound();
    EmptyIsGood(WITNESS, 7);
    hide Known, Run, CurrentPackage, EnvOk;
    assert VerifyPackage(WITNESS, Known(WITNESS, EMPTY_FLASH), OLD, None)
        == Some(Checked(7, 1, ZeroBytes(16), ZeroBytes(32)));
    assert VerifyPackage(WITNESS, Known(WITNESS, EMPTY_FLASH), NEW, None)
        == Some(Checked(7, 2, ZeroBytes(16), ZeroBytes(32)));
    UpgradeLoses(WITNESS, OLD, NEW);
  }

  lemma {:induction false} WitnessIsSound()
    ensures EnvOk(WITNESS)
  {
    forall p: seq<u8>, k | 0 <= k < |p| && WITNESS.parse(p).Some? ensures WITNESS.parse(p[..k]).None? {
      assert |p[..k]| < 1;
    }
  }
}
