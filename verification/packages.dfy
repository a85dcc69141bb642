/**
  The registry's record format: one `Package` per name, each holding its
  installed versions, the optional active version and the scope recorded at
  creation. The registry is the whole name-to-package map that every
  operation loads, transforms and saves back.
 */
module Packages {
  import opened Paths

  datatype Option<+T> = None | Some(value: T) {
    function GetOr(default: T): T {
      match this
      case Some(v) => v
      case None => default
    }
  }

  /** One installed version: where it lives, when it arrived, its executables and the installer that produced it. */
  datatype PackageVersion = PackageVersion(
    installPath: Path,
    installDate: string,
    binPaths: seq<Path>,
    packageManager: Option<string>)

  /** One named package. `system` is true for machine-wide installs. */
  datatype Package = Package(
    name: string,
    versions: map<string, PackageVersion>,
    activeVersion: Option<string>,
    system: bool)

  type Registry = map<string, Package>

  /** Fatal conditions; each aborts the operation before the registry is saved. */
  datatype Error =
    | NoInstallerAvailable              // no installer detected on the host
    | InstallerFailed(manager: string)  // the installer's install call failed
    | RemoveDirFailed(path: Path)       // deleting a version's directory failed
    | UnknownManager(manager: string)   // a recorded installer name cannot be resolved
    | UpdateFailed(name: string)        // the installer's update call failed

  datatype Result<+T> = Ok(value: T) | Err(error: Error)

  /** Non-fatal outcomes that are only reported to the user. */
  datatype Note = Done | PackageNotFound | VersionNotFound

  /** Version label used when the caller names none. */
  const LatestLabel: string := "latest"

  /** The active version, when set, is one of the package's own versions. */
  predicate ActiveIsKnown(p: Package) {
    p.activeVersion.Some? ==> p.activeVersion.value in p.versions
  }

  /** Every entry is filed under its own name and has a known active version. */
  predicate Valid(reg: Registry) {
    forall n :: n in reg ==> reg[n].name == n && ActiveIsKnown(reg[n])
  }

  /** Install directories of all versions of a package. */
  function InstallPaths(p: Package): (r: set<Path>)
    ensures forall l :: l in p.versions ==> p.versions[l].installPath in r
    ensures forall q :: q in r ==> exists l :: l in p.versions && p.versions[l].installPath == q
  {
    set l | l in p.versions :: p.versions[l].installPath
  }
}
