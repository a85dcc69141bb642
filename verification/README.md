# Package registry and version lifecycle, modelled in Dafny

This project models the registry engine of `updater`, a multi-version package
switcher. The registry maps each package name to a `Package`. A package holds
its installed versions (version label → install directory, install date,
executables, producing installer), an optional active version, and a `system`
flag recorded when the entry is created.

Each public operation loads the whole registry, applies one transition and
saves it back. Here each one is a pure function or method from the loaded
registry to the result:

- `Lifecycle.Install` registers a version once the installer has succeeded.
- `Lifecycle.Remove` drops one version or the whole package. When the active
  version goes, it promotes another one.
- `Lifecycle.Switch` changes the active version.
- `Queries.List` is the scope-filtered listing.
- `Queries.UpdateOne` and `Queries.UpdateAll` select the installer update
  calls. They never change the registry, so their report carries no registry.

Every external effect is an argument:

- the detected installer name (`None` when detection fails);
- the installer's reply (executables, or failure);
- the set of installer names that resolve;
- the packages whose update call fails;
- the home directory and the clock reading;
- the set of directories that exist on disk;
- the order in which a version map yields its labels (`iteration`).

Deletions come back as a set of paths. Errors that abort an operation before
it saves are `Err` values, so the registry on disk stays as it was loaded.

The invariant `Packages.Valid` says that every entry is filed under its own
name, and that its active version, when set, is one of its own versions.
Install, remove and switch all preserve it, and so does any sequence of them
(`LifecycleProperties.ReplayPreservesValid`).

Rust's `HashMap` decides which version is promoted after the active one is
removed. The model takes that order as the `iteration` argument. Its one
requirement is that the order lists every label of the package. The promoted
version is the first listed label that remains.
`LifecycleProperties.AnyRemainingVersionMayBePromoted` shows that any remaining
version can be the one chosen, so the model promises only "some remaining
version".

Three behaviours of the code worth knowing:

- Removing a package's last version by label keeps the package entry, with no
  versions and no active version. Only removing the whole package deletes the
  entry (`LifecycleProperties.RemoveLastVersionKeepsEmptyEntry`).
- Update-all isolates failing update calls. An installer name that cannot be
  resolved still aborts the whole batch (`Queries.UpdateAll`).
- Removing one version deletes its directory unconditionally. If that
  directory is missing, the operation fails and saves nothing. Only the
  whole-package path skips missing directories.

## Model

| member | source | states |
|---|---|---|
| `Paths.Join` | src/package.rs:71 | joining follows `PathBuf::join`: an absolute component replaces the path, and a relative one is appended after a `/` unless the base is empty or already ends in one |
| `Paths.ScopeRoot` | src/package.rs:64-69 | system installs go under `/opt/updater/packages`; user installs go under `home/.local/share/updater/packages`, with no extra `/` when the home path already ends in one |
| `Paths.InstallDir` | src/package.rs:71 | the install directory is `root.join(name).join(label)`; a relative label is appended to `root.join(name)` after exactly one `/` (none when that path is empty or already ends in `/`), and an absolute label replaces the whole path |
| `Paths.InstallDirLayout` | src/package.rs:71 | with ordinary relative components the install directory is literally `root/name/label` |
| `Paths.DistinctLabelsDistinctDirs` | src/package.rs:71 | two different plain labels (one path component, not "." or "..") of one package under the same scope root get sibling install directories: neither lies inside the other's tree |
| `Paths.PrefixedSiblings` | src/package.rs:71 | two different plain components appended to the same prefix never give one path nested in, or equal to, the other |
| `Lifecycle.LabelOf` | src/package.rs:60 | an install is recorded under the caller's version, or under "latest" when none is given |
| `Lifecycle.EntryFor` | src/package.rs:78-84 | an install reuses the existing entry unchanged; otherwise it starts a fresh entry with no versions, no active version and `system = !user` |
| `Lifecycle.Install` | src/package.rs:55-105 | fails with no change exactly when no installer is detected or the installer fails; otherwise only the named entry changes, the new record is stored under the label, other versions are untouched, an existing active version is never moved, an empty one gets the label, and the scope is fixed at creation |
| `Lifecycle.Register` | src/package.rs:87-99 | the record is stored under the label, other versions keep their records, name and scope are kept, and the label becomes active only when no version was active |
| `Lifecycle.FirstPresent` | src/package.rs:122 | the promoted label is the first label in iteration order that is still a version; none means no listed label remains |
| `Lifecycle.RemoveVersion` | src/package.rs:113-129 | the label stops being a key and the other versions are kept; an inactive removal keeps the active pointer; an active removal promotes a remaining version, or none exactly when no version remains; the entry stays |
| `Lifecycle.Remove` | src/package.rs:107-160 | an absent package or version changes nothing and is not an error; a missing directory on the one-version path fails with no save; otherwise only that package changes; the whole-package path drops exactly that entry and deletes only the directories that exist |
| `Lifecycle.Switch` | src/package.rs:275-300 | the active version becomes `version` exactly when the package exists and has that version; otherwise the registry is unchanged and the missing part is reported |
| `Queries.Describe` | src/package.rs:219-233 | a package block shows its scope as "system" or "user", its version count and one line per version, with the install date; the active marker is on exactly the active label |
| `Queries.List` | src/package.rs:203-246 | an empty registry reports "no packages"; otherwise a package is shown iff it is not hidden by `--system` (user package) or `--user` (system package); when nothing is shown and `--system` is set the system note is printed (also when `--user` is set too); with only `--user` set the user note is printed; without a filter no note |
| `Queries.CallFor` | src/package.rs:168-172 | an update call names the recorded installer and the active version, and passes that version's install path and user scope `!system` |
| `Queries.Targets` | src/package.rs:184-186 | the update targets are exactly the packages whose active version is recorded and names its installer |
| `Queries.UpdateOne` | src/package.rs:166-180 | an absent package is reported without error; a non-target is skipped; an unresolvable installer is fatal before any call; otherwise exactly one call is made, its failure is fatal and its success reports the update done |
| `Queries.UpdateAll` | src/package.rs:181-196 | it succeeds iff every target's installer resolves, whichever calls fail; on success every target is called exactly once with its own call; an abort names an unresolvable installer of some target, and no call is ever made through an unresolvable installer; failures are the called packages whose call failed |
| `LifecycleProperties.InstallPreservesValid` | src/package.rs:94-99 | a successful install keeps every active version among its package's versions |
| `LifecycleProperties.RemovePreservesValid` | src/package.rs:113-129 | a successful remove keeps every active version among its package's versions |
| `LifecycleProperties.SwitchPreservesValid` | src/package.rs:279-280 | switching keeps every active version among its package's versions |
| `LifecycleProperties.StepPreservesValid` | src/package.rs:55-300 | any single install, remove or switch keeps the registry valid, whether it succeeds or fails |
| `LifecycleProperties.ReplayPreservesValid` | src/package.rs:55-300 | any sequence of installs, removals and switches from a valid registry keeps it valid, by induction on the sequence |
| `LifecycleProperties.FirstInstallActivatesLatest` | src/package.rs:60-99 | the first versionless install of a package records exactly "latest", makes it active and records the caller's scope |
| `LifecycleProperties.ReinstallKeepsActive` | src/package.rs:78-99 | installing the same label twice, even with a different scope flag, keeps the labels, the active version and the scope of the first install |
| `LifecycleProperties.InstallThenRemoveRestores` | src/package.rs:94-129 | installing a new version into a package with an active version and then removing it gives back the original registry and deletes that version's directory |
| `LifecycleProperties.RemoveLastVersionKeepsEmptyEntry` | src/package.rs:113-129 | removing the only version by label leaves the entry in place with no versions and no active version |
| `LifecycleProperties.RemoveActivePromotesSoleOther` | src/package.rs:118-128 | removing the active one of two versions makes the other one active |
| `LifecycleProperties.AnyRemainingVersionMayBePromoted` | src/package.rs:122-123 | every remaining version is promoted under some iteration order, so the model fixes no particular choice |
| `LifecycleProperties.RemovedPackageIsGone` | src/package.rs:142-150 | after a whole-package removal, switch, remove and update all report the package as absent |
| `LifecycleProperties.SwitchIdempotent` | src/package.rs:275-281 | switching twice to the same version equals switching once |
| `LifecycleProperties.SwitchSteersUpdate` | src/package.rs:166-172 | after a switch, a single-package update calls the installer on the new active version's directory |
| `ListingProperties.BothFiltersShowNothing` | src/package.rs:214-216 | `--system` and `--user` together show no package and print the system note |
| `ListingProperties.NoFilterShowsAll` | src/package.rs:212-218 | without filters every package is shown |
| `ListingProperties.ScopeFiltersPartition` | src/package.rs:214-216 | the system-only and user-only listings are disjoint and together cover the registry |
| `ListingProperties.ActiveMarkedOnce` | src/package.rs:222-227 | in a valid registry a listed package marks one version iff it has an active version, and never marks two |

## Left out

- Loading and saving the registry file (`load_packages`, `save_packages`, `get_package_db_path`). This is JSON serialisation and file I/O. Load and save failures are not modelled, so a successful operation is taken to be saved.
- `fs::create_dir_all` for the install directory (src/package.rs:72). Its failure is not modelled. Neither is the empty directory it leaves behind when the installer then fails.
- Installer detection, installer-name lookup and the installer's install, update and search work. This code is not part of this model. Their results are arguments: `detected`, `known`, `reply`, `failing`.
- The arguments of the install call are not modelled as an output. The installer receives the caller's version option, not the "latest" default.
- `search`. It only aggregates and prints installer search results.
- The clock (`chrono`) and home-directory lookup (`dirs`). They are the `now` and `home` arguments. The panic when no home directory exists is not modelled.
- Lifecycle.Remove: deleting an existing directory is assumed to succeed. A failing `remove_dir_all` on an existing directory is not modelled; in the whole-package path such a failure would abort before saving.
- Paths.DistinctLabelsDistinctDirs: covers plain labels only. A label with a `/`, or one that is "", "." or "..", can name a directory equal to, inside, or containing another version's directory ("1.0/" is "1.0", "1.0/x" lies inside "1.0"). Removing one such version with `remove_dir_all` can then delete another version's files while the registry keeps that version. The model does not track which files a deletion reaches.
- Lifecycle.Remove: on the whole-package path, the directories to delete are those that existed when the operation started. A directory already removed inside an earlier version's tree is still listed.
- Queries.UpdateOne and Queries.UpdateAll: the final save writes back the unchanged registry, so it is not modelled.
- Coloured console output and the exact message texts. Outcomes are kept as `Note`, `EmptyNote` and `Error` values.
- The command-line front end in src/main.rs. It only parses arguments and dispatches one to one.
- Two processes racing on the registry file. The code does not guard against this.
