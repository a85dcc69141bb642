/**
  The registry transitions: registering a successful install, removing a
  version or a whole package, and switching the active version. Every
  external effect the engine depends on is an argument: the detected
  installer, the installer's reply, the home directory, the clock, the set of
  directories that exist on disk and the order in which a package's version
  map yields its labels.
 */
module Lifecycle {
  import opened Paths
  import opened Packages

  /** What the installer's install call returned. */
  datatype InstallerReply = Installed(binPaths: seq<Path>) | InstallFailed

  /** Registry after a removal, what was reported, and which directories were deleted. */
  datatype Removal = Removal(registry: Registry, note: Note, deleted: set<Path>)

  /** Registry after a switch and what was reported. */
  datatype Transition = Transition(registry: Registry, note: Note)

  /** The version label an install is recorded under. */
  function LabelOf(version: Option<string>): (tag: string)
    ensures version.Some? ==> tag == version.value
    ensures version.None? ==> tag == LatestLabel
  {
    version.GetOr(LatestLabel)
  }

  /** The package an install adds to: the existing entry, or a fresh one whose scope is fixed now. */
  function EntryFor(reg: Registry, name: string, user: bool): (p: Package)
    ensures name in reg ==> p == reg[name]
    ensures name !in reg ==> p.name == name && p.versions == map[] && p.activeVersion.None? && p.system == !user
  {
    if name in reg then reg[name] else Package(name, map[], None, !user)
  }

  /**
    Registers an install. Fails, leaving the registry as it was, when no
    installer is available or the installer reports failure; otherwise the
    version record is inserted (or overwritten) under the version label, and
    the label becomes active only if the package had no active version.
   */
  function Install(reg: Registry, name: string, version: Option<string>, user: bool,
                   detected: Option<string>, home: Path, now: string, reply: InstallerReply): (r: Result<Registry>)
    ensures r.Err? <==> detected.None? || reply.InstallFailed?
    ensures detected.None? ==> r == Err(NoInstallerAvailable)
    ensures detected.Some? && reply.InstallFailed? ==> r == Err(InstallerFailed(detected.value))
    // only the named entry changes, and it exists afterwards
    ensures r.Ok? ==> r.value.Keys == reg.Keys + {name}
    ensures r.Ok? ==> forall n :: n in reg && n != name ==> r.value[n] == reg[n]
    // the new record, under the caller's label or "latest"
    ensures r.Ok? ==> LabelOf(version) in r.value[name].versions
    ensures r.Ok? ==> (r.value[name].versions[LabelOf(version)] ==
      PackageVersion(InstallDir(ScopeRoot(user, home), name, LabelOf(version)), now, reply.binPaths, Some(detected.value)))
    // the package's other versions are untouched
    ensures r.Ok? ==> r.value[name].versions.Keys == EntryFor(reg, name, user).versions.Keys + {LabelOf(version)}
    ensures r.Ok? ==> forall l :: l in EntryFor(reg, name, user).versions && l != LabelOf(version) ==>
      r.value[name].versions[l] == EntryFor(reg, name, user).versions[l]
    // an existing active version is never moved; an empty one is filled
    ensures r.Ok? && name in reg && reg[name].activeVersion.Some? ==> r.value[name].activeVersion == reg[name].activeVersion
    ensures r.Ok? && (name !in reg || reg[name].activeVersion.None?) ==> r.value[name].activeVersion == Some(LabelOf(version))
    // scope and name are fixed when the entry is created
    ensures r.Ok? && name in reg ==> r.value[name].system == reg[name].system && r.value[name].name == reg[name].name
    ensures r.Ok? && name !in reg ==> r.value[name].system == !user && r.value[name].name == name
  {
    if detected.None? then Err(NoInstallerAvailable)
    else match reply
      case InstallFailed => Err(InstallerFailed(detected.value))
      case Installed(bins) =>
        var tag := LabelOf(version);
        var record := PackageVersion(InstallDir(ScopeRoot(user, home), name, tag), now, bins, Some(detected.value));
        Ok(reg[name := Register(EntryFor(reg, name, user), tag, record)])
  }

  /** Stores `record` under `tag`, and makes `tag` active only when nothing is active yet. */
  function Register(p: Package, tag: string, record: PackageVersion): (q: Package)
    ensures q.name == p.name && q.system == p.system
    ensures q.versions.Keys == p.versions.Keys + {tag}
    ensures tag in q.versions && q.versions[tag] == record
    ensures forall l :: l in p.versions && l != tag ==> q.versions[l] == p.versions[l]
    ensures p.activeVersion.Some? ==> q.activeVersion == p.activeVersion
    ensures p.activeVersion.None? ==> q.activeVersion == Some(tag)
  {
    var active := if p.activeVersion.None? then Some(tag) else p.activeVersion;
    p.(versions := p.versions[tag := record], activeVersion := active)
  }

  /** `iteration` mentions every label of `versions`: it stands for one order in which the map may yield them. */
  predicate Lists(iteration: seq<string>, versions: map<string, PackageVersion>) {
    forall l :: l in versions ==> l in iteration
  }

  /** The first label of `iteration` that is still a key of `versions`. */
  function FirstPresent(iteration: seq<string>, versions: map<string, PackageVersion>): (r: Option<string>)
    ensures r.Some? ==> r.value in versions
    ensures r.None? ==> forall i :: 0 <= i < |iteration| ==> iteration[i] !in versions
    ensures r.Some? ==> exists i :: (0 <= i < |iteration| && iteration[i] == r.value &&
      forall j :: 0 <= j < i ==> iteration[j] !in versions)
    decreases |iteration|
  {
    if iteration == [] then None
    else if iteration[0] in versions then Some(iteration[0])
    else
      var r := FirstPresent(iteration[1..], versions);
      assert r.Some? ==> exists i :: (0 <= i < |iteration| && iteration[i] == r.value &&
        forall j :: 0 <= j < i ==> iteration[j] !in versions)
      by {
        if r.Some? {
          var i :| 0 <= i < |iteration[1..]| && iteration[1..][i] == r.value &&
            forall j :: 0 <= j < i ==> iteration[1..][j] !in versions;
          assert iteration[i + 1] == r.value;
          forall j | 0 <= j < i + 1 ensures iteration[j] !in versions {
            if j > 0 { assert iteration[j] == iteration[1..][j - 1]; }
          }
        }
      }
      r
  }

  /**
    Drops one version. When it was the active one, the first label the map
    yields among the remaining versions becomes active, or none if no version
    remains; the package entry itself always stays.
   */
  function RemoveVersion(p: Package, ver: string, iteration: seq<string>): (q: Package)
    requires Lists(iteration, p.versions)
    ensures q.name == p.name && q.system == p.system
    ensures q.versions.Keys == p.versions.Keys - {ver}
    ensures forall l :: l in q.versions ==> q.versions[l] == p.versions[l]
    ensures p.activeVersion != Some(ver) ==> q.activeVersion == p.activeVersion
    ensures p.activeVersion == Some(ver) ==> (q.activeVersion.Some? ==> q.activeVersion.value in q.versions)
    ensures p.activeVersion == Some(ver) ==> (q.activeVersion.None? <==> q.versions == map[])
  {
    var rest := p.versions - {ver};
    var active := if p.activeVersion == Some(ver) then FirstPresent(iteration, rest) else p.activeVersion;
    assert p.activeVersion == Some(ver) && rest != map[] ==> active.Some? by {
      if p.activeVersion == Some(ver) && rest != map[] {
        var l :| l in rest;
        assert l in iteration;
      }
    }
    p.(versions := rest, activeVersion := active)
  }

  /**
    Removes one version (`version` given) or the whole package. Removing from
    an absent package, or an absent version, changes nothing and is not an
    error. The one-version path deletes the version's directory
    unconditionally and fails, saving nothing, when it is missing; the
    whole-package path deletes only the directories that exist and drops the
    entry.
   */
  function Remove(reg: Registry, name: string, version: Option<string>,
                  existing: set<Path>, iteration: seq<string>): (r: Result<Removal>)
    requires name in reg ==> Lists(iteration, reg[name].versions)
    ensures name !in reg ==> r == Ok(Removal(reg, PackageNotFound, {}))
    ensures name in reg && version.Some? && version.value !in reg[name].versions ==>
      r == Ok(Removal(reg, VersionNotFound, {}))
    // one version: fails exactly when its directory is missing
    ensures name in reg && version.Some? && version.value in reg[name].versions ==>
      var path := reg[name].versions[version.value].installPath;
      && (r.Err? <==> path !in existing)
      && (r.Err? ==> r.error == RemoveDirFailed(path))
      && (r.Ok? ==> r.value.note == Done && r.value.deleted == {path})
    ensures name in reg && version.Some? && version.value in reg[name].versions && r.Ok? ==>
      && r.value.registry.Keys == reg.Keys
      && (forall n :: n in reg && n != name ==> r.value.registry[n] == reg[n])
      && r.value.registry[name] == RemoveVersion(reg[name], version.value, iteration)
    // whole package: exactly that entry goes, and only existing directories are deleted
    ensures name in reg && version.None? ==>
      && r.Ok? && r.value.note == Done
      && r.value.registry.Keys == reg.Keys - {name}
      && (forall n :: n in r.value.registry ==> r.value.registry[n] == reg[n])
      && r.value.deleted == InstallPaths(reg[name]) * existing
  {
    if name !in reg then Ok(Removal(reg, PackageNotFound, {}))
    else
      var p := reg[name];
      match version
      case Some(ver) =>
        if ver !in p.versions then Ok(Removal(reg, VersionNotFound, {}))
        else
          var path := p.versions[ver].installPath;
          if path !in existing then Err(RemoveDirFailed(path))
          else Ok(Removal(reg[name := RemoveVersion(p, ver, iteration)], Done, {path}))
      case None =>
        Ok(Removal(reg - {name}, Done, set q | q in InstallPaths(p) && q in existing))
  }

  /**
    Makes `version` the active version of `name` exactly when the package
    exists and has that version; otherwise reports which one is missing and
    leaves the registry alone.
   */
  function Switch(reg: Registry, name: string, version: string): (r: Transition)
    ensures r.note == Done <==> name in reg && version in reg[name].versions
    ensures name !in reg ==> r == Transition(reg, PackageNotFound)
    ensures name in reg && version !in reg[name].versions ==> r == Transition(reg, VersionNotFound)
    ensures r.note == Done ==>
      && r.registry.Keys == reg.Keys
      && (forall n :: n in reg && n != name ==> r.registry[n] == reg[n])
      && r.registry[name].activeVersion == Some(version)
      && r.registry[name].versions == reg[name].versions
      && r.registry[name].name == reg[name].name
      && r.registry[name].system == reg[name].system
  {
    if name !in reg then Transition(reg, PackageNotFound)
    else if version !in reg[name].versions then Transition(reg, VersionNotFound)
    else Transition(reg[name := reg[name].(activeVersion := Some(version))], Done)
  }
}
