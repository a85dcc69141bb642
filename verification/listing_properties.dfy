/**
  Properties of the scope-filtered listing: both filters together hide
  everything, no filter hides nothing, the two single filters split the
  registry by scope, and the active marker sits on exactly the active version.
 */
module ListingProperties {
  import opened Packages
  import opened Queries

  /** Setting both scope filters shows no package at all. */
  lemma BothFiltersShowNothing(reg: Registry)
    requires reg != map[]
    ensures List(reg, true, true) == Shown(map[], Some(NoSystemPackages))
  {
  }

  /** With no filter every package is shown. */
  lemma NoFilterShowsAll(reg: Registry)
    requires reg != map[]
    ensures List(reg, false, false).packages.Keys == reg.Keys
    ensures List(reg, false, false).emptyNote == None
  {
  }

  /** The system-only and user-only listings split the registry between them with no overlap. */
  lemma ScopeFiltersPartition(reg: Registry)
    requires reg != map[]
    ensures List(reg, true, false).packages.Keys !! List(reg, false, true).packages.Keys
    ensures List(reg, true, false).packages.Keys + List(reg, false, true).packages.Keys == reg.Keys
  {
  }

  /** In a valid registry each listed package with an active version marks exactly one version line. */
  lemma ActiveMarkedOnce(reg: Registry, systemOnly: bool, userOnly: bool, name: string)
    requires Valid(reg) && name in reg && !Hidden(reg[name], systemOnly, userOnly)
    ensures var lines := List(reg, systemOnly, userOnly).packages[name].versions;
      reg[name].activeVersion.Some? <==> exists v :: v in lines && lines[v].active
    ensures var lines := List(reg, systemOnly, userOnly).packages[name].versions;
      forall v, w :: v in lines && w in lines && lines[v].active && lines[w].active ==> v == w
  {
    var lines := List(reg, systemOnly, userOnly).packages[name].versions;
    if reg[name].activeVersion.Some? {
      var a := reg[name].activeVersion.value;
      assert a in lines && lines[a].active;
    }
  }
}
