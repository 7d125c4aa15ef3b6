/**
  The installer's package check is the package reader under the installer's policy.  It meets what
  the run theorems assume of it.
 */
module InstallEnvironment {
  import opened Common
  import opened Limbs
  import opened InstallSteps
  import Package = ModulePackage

  /** The package check with the installer's key, versions and capabilities */
  function Checker(c: Package.Crypto, policy: Package.Policy): seq<u8> -> Option<Meta> {
    blob => MetaOf(Package.ParsePackage(c, blob, policy))
  }

  function MetaOf(m: Option<Package.Manifest>): Option<Meta> {
    match m
    case None => None
    case Some(manifest) => Some(Meta(manifest.header.moduleId, manifest.header.moduleVersion,
        manifest.header.moduleType))
  }

  lemma {:induction false} AcceptedIdentity(c: Package.Crypto, policy: Package.Policy, blob: seq<u8>)
    requires Package.ParsePackage(c, blob, policy).Some?
    ensures var h := Package.ParsePackage(c, blob, policy).value.header;
            IsU32(h.moduleId) && IsU32(h.moduleVersion) && h.moduleId != 0 && h.moduleVersion != 0
  {
    hide LoadWords, Package.CapabilitiesOk, Package.HeaderForCrc, Package.HeaderForSignature, Package.LayoutOk;
    var h := Package.Unpack(blob);
    assert Package.Numbers(h)[1] == h.moduleId && Package.Numbers(h)[2] == h.moduleVersion;
  }

  /** An installer that checks packages with the package reader satisfies the assumptions of the run
      theorems: in particular a torn package is never mistaken for a whole one. */
  lemma {:induction false} PackageReaderIsSound(c: Package.Crypto, policy: Package.Policy, e: Env)
    requires e.parse == Checker(c, policy)
    requires |e.signer| == 16 && forall p :: |e.sha(p)| == 32
    ensures EnvOk(e)
  {
    hide Package.ParsePackage;
    forall p | e.parse(p).Some?
      ensures IsU32(e.parse(p).value.moduleId) && IsU32(e.parse(p).value.version)
        && e.parse(p).value.moduleId != 0 && e.parse(p).value.version != 0
    {
      AcceptedIdentity(c, policy, p);
    }
    forall p, k | 0 <= k < |p| && e.parse(p).Some?
      ensures e.parse(p[..k]).None?
    {
      Package.PrefixRefused(c, p, policy, k, policy);
    }
  }
}
