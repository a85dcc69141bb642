/**
  Filesystem paths as the registry sees them: plain strings, joined the way
  Rust's `PathBuf::join` joins them on Unix, and the install-directory layout
  `{scope root}/{package name}/{version label}`.
 */
module Paths {

  type Path = string

  /** Root of machine-wide installs. */
  const SystemPackagesRoot: Path := "/opt/updater/packages"

  /** Root of per-user installs, relative to the user's home directory. */
  const UserPackagesRoot: Path := ".local/share/updater/packages"

  predicate IsAbsolute(p: Path) {
    |p| > 0 && p[0] == '/'
  }

  /** True when appending to `p` needs no separator first. */
  predicate NeedsNoSeparator(p: Path) {
    |p| == 0 || p[|p| - 1] == '/'
  }

  /**
    `base.join(component)`: an absolute component replaces the whole path;
    a relative one is appended, after a `/` unless `base` is empty or already
    ends with one. No normalisation of `.` or `..` takes place.
   */
  function Join(base: Path, component: Path): (r: Path)
    ensures IsAbsolute(component) ==> r == component
    ensures !IsAbsolute(component) && NeedsNoSeparator(base) ==> r == base + component
    ensures !IsAbsolute(component) && !NeedsNoSeparator(base) ==> r == base + "/" + component
  {
    if IsAbsolute(component) then component
    else if NeedsNoSeparator(base) then base + component
    else base + "/" + component
  }

  /** The directory that new installs of the given scope go under. */
  function ScopeRoot(user: bool, home: Path): (r: Path)
    ensures !user ==> r == SystemPackagesRoot
    ensures user && !NeedsNoSeparator(home) ==> r == home + "/" + UserPackagesRoot
    ensures user && NeedsNoSeparator(home) ==> r == home + UserPackagesRoot
  {
    if user then Join(home, UserPackagesRoot) else SystemPackagesRoot
  }

  /** `base_install_path.join(name).join(tag)`. */
  function InstallDir(root: Path, name: string, tag: string): (r: Path)
    ensures !IsAbsolute(tag) ==> |Join(root, name)| <= |r| && r[..|Join(root, name)|] == Join(root, name)
    ensures !IsAbsolute(tag) ==> |tag| <= |r| && r[|r| - |tag|..] == tag
    // a relative label sits exactly one separator below `root.join(name)`
    ensures !IsAbsolute(tag) && !NeedsNoSeparator(Join(root, name)) ==> r == Join(root, name) + "/" + tag
    ensures !IsAbsolute(tag) && NeedsNoSeparator(Join(root, name)) ==> r == Join(root, name) + tag
    ensures IsAbsolute(tag) ==> r == tag
  {
    Join(Join(root, name), tag)
  }

  /**
    With a root that does not end in `/`, a non-empty relative package name
    and a relative version label, the install directory is literally
    `root/name/label`.
   */
  lemma InstallDirLayout(root: Path, name: string, tag: string)
    requires |root| > 0 && !NeedsNoSeparator(root)
    requires name != [] && !IsAbsolute(name) && name[|name| - 1] != '/'
    requires !IsAbsolute(tag)
    ensures InstallDir(root, name, tag) == root + "/" + name + "/" + tag
  {
  }

  /** A label that names exactly one directory level: no separator, and none of "", "." or "..". */
  predicate IsPlainComponent(tag: string) {
    tag != "" && tag != "." && tag != ".." && '/' !in tag
  }

  /** `inner` is the directory `outer` itself or lies somewhere inside its tree. */
  predicate Within(inner: Path, outer: Path) {
    inner == outer || (|outer| < |inner| && inner[..|outer| + 1] == outer + "/")
  }

  /**
    Two different plain version labels of the same package, installed under the
    same scope root, get sibling install directories: neither lies inside the other's tree, so deleting one
    version's directory leaves the other's files alone.
   */
  lemma DistinctLabelsDistinctDirs(root: Path, name: string, tag1: string, tag2: string)
    requires IsPlainComponent(tag1) && IsPlainComponent(tag2)
    requires tag1 != tag2
    ensures !Within(InstallDir(root, name, tag1), InstallDir(root, name, tag2))
    ensures !Within(InstallDir(root, name, tag2), InstallDir(root, name, tag1))
  {
    var d := Join(root, name);
    var p := if NeedsNoSeparator(d) then d else d + "/";
    assert InstallDir(root, name, tag1) == p + tag1;
    assert InstallDir(root, name, tag2) == p + tag2;
    PrefixedSiblings(p, tag1, tag2);
    PrefixedSiblings(p, tag2, tag1);
  }

  /** Appending two different plain components to one prefix never nests one path in the other. */
  lemma PrefixedSiblings(p: Path, a: string, b: string)
    requires IsPlainComponent(a) && IsPlainComponent(b) && a != b
    ensures !Within(p + a, p + b)
  {
    assert (p + a)[|p|..] == a && (p + b)[|p|..] == b;
    if |p + b| < |p + a| {
      assert (p + a)[|p| + |b|] == a[|b|];
      assert (p + b + "/")[|p| + |b|] == '/';
    }
  }
}
