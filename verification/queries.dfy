/**
  The read-only operations: the scope-filtered listing and the selection of
  update targets. Neither changes the registry; their results say what is
  shown and which installer calls are made.
 */
module Queries {
  import opened Paths
  import opened Packages

  // ---------------------------------------------------------------- listing

  /** One version line: the active marker and the install date shown beside the label. */
  datatype VersionLine = VersionLine(active: bool, installDate: string)

  /** One package block: its scope label, its version count and a line per version. */
  datatype PackageLine = PackageLine(scope: string, versionCount: nat, versions: map<string, VersionLine>)

  /** The message printed when the filter leaves nothing. */
  datatype EmptyNote = NoSystemPackages | NoUserPackages

  datatype Listing =
    | NothingInstalled
    | Shown(packages: map<string, PackageLine>, emptyNote: Option<EmptyNote>)

  /** A package is hidden when `--system` is set and it is a user package, or `--user` is set and it is a system one. */
  predicate Hidden(p: Package, systemOnly: bool, userOnly: bool) {
    (systemOnly && !p.system) || (userOnly && p.system)
  }

  function ScopeLabel(system: bool): string {
    if system then "system" else "user"
  }

  /** The block printed for one package. */
  function Describe(p: Package): (d: PackageLine)
    ensures d.scope == (if p.system then "system" else "user")
    ensures d.versionCount == |p.versions|
    ensures d.versions.Keys == p.versions.Keys
    ensures forall v :: v in d.versions ==> d.versions[v].installDate == p.versions[v].installDate
    ensures forall v :: v in d.versions ==> (d.versions[v].active <==> p.activeVersion == Some(v))
  {
    PackageLine(ScopeLabel(p.system), |p.versions|,
                map v | v in p.versions :: VersionLine(p.activeVersion == Some(v), p.versions[v].installDate))
  }

  /**
    The listing: nothing at all for an empty registry; otherwise every package
    the scope filters let through, and a note when none did and a filter was
    set.
   */
  function List(reg: Registry, systemOnly: bool, userOnly: bool): (r: Listing)
    ensures r.NothingInstalled? <==> reg == map[]
    ensures r.Shown? ==> forall n :: n in r.packages <==> n in reg && !Hidden(reg[n], systemOnly, userOnly)
    ensures r.Shown? ==> forall n :: n in r.packages ==> r.packages[n] == Describe(reg[n])
    ensures r.Shown? ==> (r.emptyNote.Some? <==> r.packages == map[] && (systemOnly || userOnly))
    ensures r.Shown? && r.packages == map[] && systemOnly ==> r.emptyNote == Some(NoSystemPackages)
    ensures r.Shown? && r.packages == map[] && !systemOnly && userOnly ==> r.emptyNote == Some(NoUserPackages)
  {
    if reg == map[] then NothingInstalled
    else
      var shown := map n | n in reg && !Hidden(reg[n], systemOnly, userOnly) :: Describe(reg[n]);
      var note :=
        if shown != map[] then None
        else if systemOnly then Some(NoSystemPackages)
        else if userOnly then Some(NoUserPackages)
        else None;
      Shown(shown, note)
  }

  // ---------------------------------------------------------------- updates

  /** One call to an installer's update operation. */
  datatype UpdateCall = UpdateCall(manager: string, name: string, version: string, installPath: Path, userScope: bool)

  /** Installer calls in the order made, the packages whose call failed, and the overall outcome. */
  datatype UpdateReport = UpdateReport(calls: seq<UpdateCall>, failed: set<string>, outcome: Result<Note>)

  /** A package is updated when its active version is recorded and names the installer that produced it. */
  predicate IsTarget(p: Package) {
    && p.activeVersion.Some?
    && p.activeVersion.value in p.versions
    && p.versions[p.activeVersion.value].packageManager.Some?
  }

  function ManagerOf(p: Package): string
    requires IsTarget(p)
  {
    p.versions[p.activeVersion.value].packageManager.value
  }

  /** The call made for a target: its active version, that version's directory, and the recorded scope. */
  function CallFor(name: string, p: Package): (c: UpdateCall)
    requires IsTarget(p)
    ensures c.name == name && c.manager == ManagerOf(p)
    ensures Some(c.version) == p.activeVersion
    ensures c.installPath == p.versions[c.version].installPath
    ensures c.userScope == !p.system
  {
    var v := p.activeVersion.value;
    UpdateCall(ManagerOf(p), name, v, p.versions[v].installPath, !p.system)
  }

  /** Every package update-all would dispatch. */
  function Targets(reg: Registry): (t: set<string>)
    ensures forall n :: n in t <==> n in reg && IsTarget(reg[n])
  {
    set n | n in reg && IsTarget(reg[n])
  }

  function CalledNames(calls: seq<UpdateCall>): set<string> {
    set i | 0 <= i < |calls| :: calls[i].name
  }

  lemma CalledNamesAppend(calls: seq<UpdateCall>, c: UpdateCall)
    ensures CalledNames(calls + [c]) == CalledNames(calls) + {c.name}
  {
    var s := calls + [c];
    assert s[|calls|].name == c.name;
    forall x | x in CalledNames(calls) ensures x in CalledNames(s) {
      var i :| 0 <= i < |calls| && calls[i].name == x;
      assert s[i].name == x;
    }
  }

  /**
    Updates one named package. An absent package is reported and is not an
    error; a package with no active version or no recorded installer is
    silently skipped. An installer name that cannot be resolved, or a failing
    update call, is fatal.
   */
  function UpdateOne(reg: Registry, name: string, known: set<string>, failing: set<string>): (r: UpdateReport)
    ensures |r.calls| <= 1
    ensures r.calls != [] <==> name in reg && IsTarget(reg[name]) && ManagerOf(reg[name]) in known
    ensures r.calls != [] ==> r.calls[0] == CallFor(name, reg[name])
    ensures name !in reg ==> r.outcome == Ok(PackageNotFound)
    ensures name in reg && !IsTarget(reg[name]) ==> r.outcome == Ok(Done)
    ensures name in reg && IsTarget(reg[name]) && ManagerOf(reg[name]) !in known ==>
      r.outcome == Err(UnknownManager(ManagerOf(reg[name])))
    ensures r.calls != [] ==> (r.outcome.Err? <==> name in failing)
    ensures r.calls != [] && name in failing ==> r.outcome == Err(UpdateFailed(name))
    ensures r.calls != [] && name !in failing ==> r.outcome == Ok(Done)
    ensures r.failed == (if r.calls != [] && name in failing then {name} else {})
  {
    if name !in reg then UpdateReport([], {}, Ok(PackageNotFound))
    else if !IsTarget(reg[name]) then UpdateReport([], {}, Ok(Done))
    else if ManagerOf(reg[name]) !in known then UpdateReport([], {}, Err(UnknownManager(ManagerOf(reg[name]))))
    else if name in failing then UpdateReport([CallFor(name, reg[name])], {name}, Err(UpdateFailed(name)))
    else UpdateReport([CallFor(name, reg[name])], {}, Ok(Done))
  }

  /**
    Updates every target, visiting the packages in whatever order the map
    yields them. A failing update call is recorded and the loop goes on; an
    installer name that cannot be resolved aborts the loop at once, so the
    batch succeeds exactly when every target's installer resolves, whichever
    calls fail.
   */
  method UpdateAll(reg: Registry, known: set<string>, failing: set<string>) returns (r: UpdateReport)
    ensures r.outcome.Ok? <==> forall n :: n in Targets(reg) ==> ManagerOf(reg[n]) in known
    ensures r.outcome.Ok? ==> r.outcome.value == Done && CalledNames(r.calls) == Targets(reg)
    ensures r.outcome.Err? ==> r.outcome.error.UnknownManager? && r.outcome.error.manager !in known
    ensures r.outcome.Err? ==> exists n :: n in Targets(reg) && ManagerOf(reg[n]) == r.outcome.error.manager
    ensures CalledNames(r.calls) <= Targets(reg)
    ensures forall i :: 0 <= i < |r.calls| ==> r.calls[i] == CallFor(r.calls[i].name, reg[r.calls[i].name])
    // a target whose installer does not resolve is never called, even on abort
    ensures forall i :: 0 <= i < |r.calls| ==> r.calls[i].manager in known
    ensures forall i, j :: 0 <= i < j < |r.calls| ==> r.calls[i].name != r.calls[j].name
    ensures r.failed == CalledNames(r.calls) * failing
  {
    var todo := reg.Keys;
    var calls: seq<UpdateCall> := [];
    var failed: set<string> := {};
    while todo != {}
      invariant todo <= reg.Keys
      invariant CalledNames(calls) == Targets(reg) - todo
      invariant forall i :: 0 <= i < |calls| ==> calls[i].name in reg && IsTarget(reg[calls[i].name])
      invariant forall i :: 0 <= i < |calls| ==> calls[i] == CallFor(calls[i].name, reg[calls[i].name])
      invariant forall i :: 0 <= i < |calls| ==> calls[i].manager in known
      invariant forall i, j :: 0 <= i < j < |calls| ==> calls[i].name != calls[j].name
      invariant forall n :: n in Targets(reg) - todo ==> ManagerOf(reg[n]) in known
      invariant failed == CalledNames(calls) * failing
      decreases todo
    {
      var n :| n in todo;
      todo := todo - {n};
      if IsTarget(reg[n]) {
        var m := ManagerOf(reg[n]);
        if m !in known {
          return UpdateReport(calls, failed, Err(UnknownManager(m)));
        }
        assert n !in CalledNames(calls);
        CalledNamesAppend(calls, CallFor(n, reg[n]));
        calls := calls + [CallFor(n, reg[n])];
        if n in failing {
          failed := failed + {n};
        }
      }
    }
    r := UpdateReport(calls, failed, Ok(Done));
  }
}
