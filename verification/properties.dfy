/**
  Properties that relate several calls, or an operation to the registry
  invariant: the active version stays one of the package's own versions
  across install, remove and switch; reinstalling never moves the active
  pointer; installing a new version and removing it again restores the
  registry; the promoted version after removing the active one is not fixed
  by the model.
 */
module LifecycleProperties {
  import opened Paths
  import opened Packages
  import opened Lifecycle
  import opened Queries

  // ------------------------------------------------------- the invariant

  lemma InstallPreservesValid(reg: Registry, name: string, version: Option<string>, user: bool,
                              detected: Option<string>, home: Path, now: string, reply: InstallerReply)
    requires Valid(reg)
    ensures Install(reg, name, version, user, detected, home, now, reply).Ok? ==>
      Valid(Install(reg, name, version, user, detected, home, now, reply).value)
  {
  }

  lemma RemovePreservesValid(reg: Registry, name: string, version: Option<string>,
                             existing: set<Path>, iteration: seq<string>)
    requires Valid(reg)
    requires name in reg ==> Lists(iteration, reg[name].versions)
    ensures Remove(reg, name, version, existing, iteration).Ok? ==>
      Valid(Remove(reg, name, version, existing, iteration).value.registry)
  {
  }

  lemma SwitchPreservesValid(reg: Registry, name: string, version: string)
    requires Valid(reg)
    ensures Valid(Switch(reg, name, version).registry)
  {
  }

  /** One state-changing command, with the external effects it meets. */
  datatype Command =
    | InstallCmd(name: string, version: Option<string>, user: bool,
                 detected: Option<string>, home: Path, now: string, reply: InstallerReply)
    | RemoveCmd(name: string, version: Option<string>, existing: set<Path>, order: seq<string>)
    | SwitchCmd(name: string, target: string)

  /** Some enumeration of a set of labels. */
  ghost function Enumerate(s: set<string>): (r: seq<string>)
    ensures forall x :: x in s ==> x in r
    decreases s
  {
    if s == {} then []
    else
      var x :| x in s;
      [x] + Enumerate(s - {x})
  }

  /**
    The registry after one command: a failed command leaves it unchanged. The
    version map of a removal yields the labels of `order` first and then all
    others in some order.
   */
  ghost function Step(reg: Registry, c: Command): Registry {
    match c
    case InstallCmd(name, version, user, detected, home, now, reply) =>
      var r := Install(reg, name, version, user, detected, home, now, reply);
      if r.Ok? then r.value else reg
    case RemoveCmd(name, version, existing, order) =>
      var iteration := order + (if name in reg then Enumerate(reg[name].versions.Keys) else []);
      var r := Remove(reg, name, version, existing, iteration);
      if r.Ok? then r.value.registry else reg
    case SwitchCmd(name, target) =>
      Switch(reg, name, target).registry
  }

  ghost function Replay(reg: Registry, cmds: seq<Command>): Registry
    decreases |cmds|
  {
    if cmds == [] then reg else Replay(Step(reg, cmds[0]), cmds[1..])
  }

  lemma StepPreservesValid(reg: Registry, c: Command)
    requires Valid(reg)
    ensures Valid(Step(reg, c))
  {
    match c
    case InstallCmd(name, version, user, detected, home, now, reply) =>
      InstallPreservesValid(reg, name, version, user, detected, home, now, reply);
    case RemoveCmd(name, version, existing, order) =>
      var iteration := order + (if name in reg then Enumerate(reg[name].versions.Keys) else []);
      RemovePreservesValid(reg, name, version, existing, iteration);
    case SwitchCmd(name, target) =>
      SwitchPreservesValid(reg, name, target);
  }

  /** Any sequence of installs, removals and switches keeps the registry valid. */
  lemma {:induction false} ReplayPreservesValid(reg: Registry, cmds: seq<Command>)
    requires Valid(reg)
    ensures Valid(Replay(reg, cmds))
    decreases |cmds|
  {
    if cmds != [] {
      StepPreservesValid(reg, cmds[0]);
      ReplayPreservesValid(Step(reg, cmds[0]), cmds[1..]);
    }
  }

  // ------------------------------------------------------- install

  /** Installing a package that is not yet registered, without a version, records exactly "latest" and makes it active. */
  lemma FirstInstallActivatesLatest(reg: Registry, name: string, user: bool,
                                    manager: string, home: Path, now: string, bins: seq<Path>)
    requires name !in reg
    ensures var r := Install(reg, name, None, user, Some(manager), home, now, Installed(bins));
      && r.Ok?
      && r.value[name].versions.Keys == {LatestLabel}
      && r.value[name].activeVersion == Some(LatestLabel)
      && r.value[name].system == !user
  {
  }

  /**
    Installing the same version twice leaves the same version labels and the
    same active version as installing it once, whatever either call's scope
    flag was; the second call only refreshes the version record.
   */
  lemma ReinstallKeepsActive(reg: Registry, name: string, version: Option<string>, user1: bool, user2: bool,
                             manager1: string, manager2: string, home: Path, now1: string, now2: string,
                             bins1: seq<Path>, bins2: seq<Path>)
    requires Install(reg, name, version, user1, Some(manager1), home, now1, Installed(bins1)).Ok?
    ensures var once := Install(reg, name, version, user1, Some(manager1), home, now1, Installed(bins1)).value;
      var twice := Install(once, name, version, user2, Some(manager2), home, now2, Installed(bins2)).value;
      && twice.Keys == once.Keys
      && twice[name].versions.Keys == once[name].versions.Keys
      && twice[name].activeVersion == once[name].activeVersion
      && twice[name].system == once[name].system
  {
  }

  /**
    Installing a version the package does not have yet and then removing it
    gives back the registry that was there before, provided the package
    already had an active version (the new one does not become active).
   */
  lemma InstallThenRemoveRestores(reg: Registry, name: string, ver: string, user: bool,
                                  manager: string, home: Path, now: string, bins: seq<Path>,
                                  existing: set<Path>, iteration: seq<string>)
    requires Valid(reg) && name in reg && reg[name].activeVersion.Some?
    requires ver !in reg[name].versions
    requires InstallDir(ScopeRoot(user, home), name, ver) in existing
    requires Lists(iteration, reg[name].versions) && ver in iteration
    ensures var installed := Install(reg, name, Some(ver), user, Some(manager), home, now, Installed(bins)).value;
      Remove(installed, name, Some(ver), existing, iteration) ==
        Ok(Removal(reg, Done, {InstallDir(ScopeRoot(user, home), name, ver)}))
  {
    var installed := Install(reg, name, Some(ver), user, Some(manager), home, now, Installed(bins)).value;
    var p := installed[name];
    assert p.activeVersion == reg[name].activeVersion;
    assert p.activeVersion != Some(ver);
    assert Lists(iteration, p.versions);
    var q := RemoveVersion(p, ver, iteration);
    assert q.versions == reg[name].versions;
    assert q == reg[name];
    var r := Remove(installed, name, Some(ver), existing, iteration);
    assert r.value.registry == installed[name := q];
    assert installed[name := q] == reg;
  }

  // ------------------------------------------------------- remove

  /**
    Removing the only version of a package by label keeps the package entry,
    now with no versions and no active version; only removing the whole
    package drops the entry.
   */
  lemma RemoveLastVersionKeepsEmptyEntry(reg: Registry, name: string, ver: string,
                                         existing: set<Path>, iteration: seq<string>)
    requires name in reg && reg[name].versions.Keys == {ver}
    requires reg[name].activeVersion == Some(ver)
    requires reg[name].versions[ver].installPath in existing
    requires Lists(iteration, reg[name].versions)
    ensures var r := Remove(reg, name, Some(ver), existing, iteration);
      && r.Ok?
      && name in r.value.registry
      && r.value.registry[name].versions == map[]
      && r.value.registry[name].activeVersion == None
  {
  }

  /**
    Removing the active version of a package with exactly one other version
    makes that other version active.
   */
  lemma RemoveActivePromotesSoleOther(reg: Registry, name: string, ver: string, other: string,
                                      existing: set<Path>, iteration: seq<string>)
    requires name in reg && reg[name].versions.Keys == {ver, other} && ver != other
    requires reg[name].activeVersion == Some(ver)
    requires reg[name].versions[ver].installPath in existing
    requires Lists(iteration, reg[name].versions)
    ensures var r := Remove(reg, name, Some(ver), existing, iteration);
      r.Ok? && r.value.registry[name].activeVersion == Some(other)
  {
  }

  /**
    The model does not decide which remaining version is promoted: for every
    remaining version there is an iteration order of the version map under
    which it is the one chosen.
   */
  lemma AnyRemainingVersionMayBePromoted(reg: Registry, name: string, ver: string, other: string,
                                         existing: set<Path>, iteration: seq<string>)
    requires name in reg && reg[name].activeVersion == Some(ver) && ver in reg[name].versions
    requires other in reg[name].versions && other != ver
    requires reg[name].versions[ver].installPath in existing
    requires Lists(iteration, reg[name].versions)
    ensures Lists([other] + iteration, reg[name].versions)
    ensures var r := Remove(reg, name, Some(ver), existing, [other] + iteration);
      r.Ok? && r.value.registry[name].activeVersion == Some(other)
  {
  }

  /** After a whole package is removed, every operation on it reports it as absent. */
  lemma RemovedPackageIsGone(reg: Registry, name: string, existing: set<Path>, iteration: seq<string>,
                             version: string, known: set<string>, failing: set<string>)
    requires name in reg && Lists(iteration, reg[name].versions)
    ensures var after := Remove(reg, name, None, existing, iteration).value.registry;
      && Switch(after, name, version).note == PackageNotFound
      && Remove(after, name, Some(version), existing, iteration) == Ok(Removal(after, PackageNotFound, {}))
      && UpdateOne(after, name, known, failing).outcome == Ok(PackageNotFound)
  {
  }

  // ------------------------------------------------------- switch

  /** Switching twice to the same version is the same as switching once. */
  lemma SwitchIdempotent(reg: Registry, name: string, version: string)
    ensures var once := Switch(reg, name, version).registry;
      Switch(once, name, version).registry == once
  {
  }

  /** After a successful switch, a single-package update targets exactly the new active version. */
  lemma SwitchSteersUpdate(reg: Registry, name: string, version: string, known: set<string>, failing: set<string>)
    requires name in reg && version in reg[name].versions
    requires reg[name].versions[version].packageManager.Some?
    requires reg[name].versions[version].packageManager.value in known
    ensures var after := Switch(reg, name, version).registry;
      var u := UpdateOne(after, name, known, failing);
      |u.calls| == 1 && u.calls[0].version == version
      && u.calls[0].installPath == reg[name].versions[version].installPath
  {
  }
}
