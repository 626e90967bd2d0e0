/**
 * Locating the git directory from an arbitrary start path (`OpenGoGitRepo`'s
 * path detection). The walk goes upward from the start path; at each level a
 * `.git` entry wins (working-tree layout), otherwise a directory holding the
 * git markers is itself the git directory (bare layout, or a start path inside
 * a `.git`); reaching `/` without a match fails.
 */
module GitDir {
  import opened Results
  import opened Paths

  const DotGit: string := ".git"

  /** The entries whose joint presence makes a directory a git directory, in the order they are checked. */
  const Markers: seq<string> := ["HEAD", "objects", "refs"]

  datatype ResolveError = PathNotFound | PermissionDenied(at: Path)

  /** Checks `Markers[i..]` in order: a missing marker answers false, a refused stat is an error. */
  function MarkersFrom(fs: FileSystem, dir: Path, i: nat): (r: Result<bool, ResolveError>)
    requires i <= |Markers|
    ensures r.Err? ==> r.error.PermissionDenied? && Stat(fs, r.error.at) == Denied
    decreases |Markers| - i
  {
    if i == |Markers| then Ok(true)
    else match Stat(fs, dir + [Markers[i]])
      case Present => MarkersFrom(fs, dir, i + 1)
      case Absent => Ok(false)
      case Denied => Err(PermissionDenied(dir + [Markers[i]]))
  }

  /** Does `dir` have the structure of a git directory? */
  function IsGitDir(fs: FileSystem, dir: Path): (r: Result<bool, ResolveError>)
    ensures r.Err? ==> r.error.PermissionDenied? && Stat(fs, r.error.at) == Denied
  {
    MarkersFrom(fs, dir, 0)
  }

  lemma {:induction false} MarkersFromMeaning(fs: FileSystem, dir: Path, i: nat)
    requires i <= |Markers|
    ensures MarkersFrom(fs, dir, i) == Ok(true) <==> forall j :: i <= j < |Markers| ==> Stat(fs, dir + [Markers[j]]) == Present
    ensures (forall j :: i <= j < |Markers| ==> Stat(fs, dir + [Markers[j]]) != Denied) ==> MarkersFrom(fs, dir, i).Ok?
    decreases |Markers| - i
  {
    if i < |Markers| {
      MarkersFromMeaning(fs, dir, i + 1);
    }
  }

  /** A directory is a git directory exactly when every marker is present in it. */
  lemma IsGitDirMeaning(fs: FileSystem, dir: Path)
    ensures IsGitDir(fs, dir) == Ok(true) <==> forall m :: m in Markers ==> Stat(fs, dir + [m]) == Present
    ensures (forall m :: m in Markers ==> Stat(fs, dir + [m]) != Denied) ==> IsGitDir(fs, dir).Ok?
  {
    MarkersFromMeaning(fs, dir, 0);
  }

  /** What the walk learns at one level. */
  datatype Level = Found(gitDir: Path) | Blocked(at: Path) | Miss

  /**
   * One level of the walk: the `.git` entry of `p` if present, else `p` itself
   * if it holds every marker; a refused stat blocks the walk.
   */
  function LevelOf(fs: FileSystem, p: Path): Level {
    match Stat(fs, p + [DotGit])
    case Present => Found(p + [DotGit])
    case Denied => Blocked(p + [DotGit])
    case Absent =>
      match IsGitDir(fs, p)
      case Ok(true) => Found(p)
      case Ok(false) => Miss
      case Err(e) => Blocked(e.at)
  }

  /** A level finds exactly a present `.git` entry or, failing that, a directory holding every marker; a blocked level names a refused stat. */
  lemma LevelOfMeaning(fs: FileSystem, p: Path)
    ensures var l := LevelOf(fs, p);
      && (l.Found? <==> Stat(fs, p + [DotGit]) == Present || (Stat(fs, p + [DotGit]) == Absent && forall m :: m in Markers ==> Stat(fs, p + [m]) == Present))
      && (l.Found? && Stat(fs, p + [DotGit]) == Present ==> l.gitDir == p + [DotGit])
      && (l.Found? && Stat(fs, p + [DotGit]) != Present ==> l.gitDir == p)
      && (l.Blocked? ==> Stat(fs, l.at) == Denied)
  {
    IsGitDirMeaning(fs, p);
  }

  /** The result the walk returns when it stops at a level that is not a miss. */
  function Outcome(l: Level): Result<Path, ResolveError>
    requires !l.Miss?
  {
    if l.Found? then Ok(l.gitDir) else Err(PermissionDenied(l.at))
  }

  /**
   * `g` can be what the walk from `p` returns: an ancestor-or-self of `p`
   * holding every marker, or the `.git` entry of an ancestor-or-self of `p`.
   */
  ghost predicate GitDirFor(fs: FileSystem, g: Path, p: Path) {
    || (Under(g, p) && forall m :: m in Markers ==> Stat(fs, g + [m]) == Present)
    || (g != [] && g[|g| - 1] == DotGit && Under(g[..|g| - 1], p) && Stat(fs, g) == Present)
  }

  /** A git directory for the parent of `p` is one for `p` too. */
  lemma GitDirForParent(fs: FileSystem, g: Path, p: Path)
    requires p != [] && GitDirFor(fs, g, Parent(p))
    ensures GitDirFor(fs, g, p)
  {
    if Under(g, Parent(p)) {
      assert p[..|g|] == Parent(p)[..|g|];
    } else {
      var d := g[..|g| - 1];
      assert p[..|d|] == Parent(p)[..|d|];
    }
  }

  /** The upward walk of `OpenGoGitRepo` from the start path `p`. */
  function Resolve(fs: FileSystem, p: Path): Result<Path, ResolveError>
    decreases |p|
  {
    match LevelOf(fs, p)
    case Found(g) => Ok(g)
    case Blocked(q) => Err(PermissionDenied(q))
    case Miss => if p == [] then Err(PathNotFound) else Resolve(fs, Parent(p))
  }

  /**
   * The walk returns a git directory for the start path (see `GitDirFor`),
   * and a permission error names a path whose stat was refused.
   */
  lemma {:induction false} ResolveReturnsGitDirFor(fs: FileSystem, p: Path)
    ensures var r := Resolve(fs, p);
      && (r.Ok? ==> GitDirFor(fs, r.value, p))
      && (r.Err? && r.error.PermissionDenied? ==> Stat(fs, r.error.at) == Denied)
    decreases |p|
  {
    LevelOfMeaning(fs, p);
    match LevelOf(fs, p)
    case Found(g) =>
      assert p[..|p|] == p;
      assert g == p + [DotGit] ==> g[..|g| - 1] == p;
    case Blocked(q) =>
    case Miss =>
      if p != [] {
        ResolveReturnsGitDirFor(fs, Parent(p));
        var r := Resolve(fs, Parent(p));
        if r.Ok? {
          GitDirForParent(fs, r.value, p);
        }
      }
  }

  /** No level from `/` down to `p` holds a repository. */
  ghost predicate NoRepositoryOnPath(fs: FileSystem, p: Path) {
    forall k :: 0 <= k <= |p| ==> LevelOf(fs, p[..k]).Miss?
  }

  /** The walk stops at the nearest ancestor-or-self of `p` that is not a miss. */
  lemma {:induction false} ResolveStopsAtNearestLevel(fs: FileSystem, p: Path, k: nat)
    requires k <= |p| && !LevelOf(fs, p[..k]).Miss?
    requires forall j :: k < j <= |p| ==> LevelOf(fs, p[..j]).Miss?
    ensures Resolve(fs, p) == Outcome(LevelOf(fs, p[..k]))
    decreases |p|
  {
    if k < |p| {
      assert p[..|p|] == p;
      var q := Parent(p);
      assert q[..k] == p[..k];
      forall j | k < j <= |q| ensures LevelOf(fs, q[..j]).Miss? {
        assert q[..j] == p[..j];
      }
      ResolveStopsAtNearestLevel(fs, q, k);
    } else {
      assert p[..k] == p;
    }
  }

  /** Resolution fails with PathNotFound exactly when no level on the way up holds a repository. */
  lemma {:induction false} ResolveNotFoundIff(fs: FileSystem, p: Path)
    ensures Resolve(fs, p) == Err(PathNotFound) <==> NoRepositoryOnPath(fs, p)
    decreases |p|
  {
    assert p[..|p|] == p;
    if p != [] {
      var q := Parent(p);
      ResolveNotFoundIff(fs, q);
      forall j | 0 <= j <= |q| ensures q[..j] == p[..j] {}
    }
  }

  /** A successful resolution returns what some level on the way up found. */
  lemma {:induction false} ResolveFoundAtSomeLevel(fs: FileSystem, p: Path)
    requires Resolve(fs, p).Ok?
    ensures exists k :: 0 <= k <= |p| && LevelOf(fs, p[..k]) == Found(Resolve(fs, p).value)
    decreases |p|
  {
    assert p[..|p|] == p;
    if LevelOf(fs, p).Miss? {
      var q := Parent(p);
      ResolveFoundAtSomeLevel(fs, q);
      var k :| 0 <= k <= |q| && LevelOf(fs, q[..k]) == Found(Resolve(fs, q).value);
      assert q[..k] == p[..k];
    }
  }

  /** The filesystem root outside any repository does not resolve (`/` row). */
  lemma RootFails(fs: FileSystem)
    requires Stat(fs, [DotGit]) == Absent
    requires exists m :: m in Markers && Stat(fs, [] + [m]) == Absent
    requires forall m :: m in Markers ==> Stat(fs, [] + [m]) != Denied
    ensures Resolve(fs, []) == Err(PathNotFound)
  {
    IsGitDirMeaning(fs, []);
    assert [] + [DotGit] == [DotGit];
    assert IsGitDir(fs, []) == Ok(false);
  }

  /** A freshly initialised working tree at `root`: `root/.git` with its markers, nothing nested. */
  ghost predicate PlainRepoLayout(fs: FileSystem, root: Path) {
    var g := root + [DotGit];
    && Stat(fs, g) == Present
    && (forall m :: m in Markers ==> Stat(fs, g + [m]) == Present)
    && Stat(fs, g + [DotGit]) == Absent
    && Stat(fs, g + ["objects", DotGit]) == Absent
    && Stat(fs, g + ["objects", "HEAD"]) == Absent
  }

  /** A freshly initialised bare repository at `bare`: the markers in `bare` itself, nothing nested. */
  ghost predicate BareRepoLayout(fs: FileSystem, bare: Path) {
    && Stat(fs, bare + [DotGit]) == Absent
    && (forall m :: m in Markers ==> Stat(fs, bare + [m]) == Present)
    && Stat(fs, bare + ["objects", DotGit]) == Absent
    && Stat(fs, bare + ["objects", "HEAD"]) == Absent
  }

  /** Working tree rows: the root, `root/.git` and `root/.git/objects` all resolve to `root/.git`. */
  lemma PlainRepoRows(fs: FileSystem, root: Path)
    requires PlainRepoLayout(fs, root)
    ensures Resolve(fs, root) == Ok(root + [DotGit])
    ensures Resolve(fs, root + [DotGit]) == Ok(root + [DotGit])
    ensures Resolve(fs, root + [DotGit, "objects"]) == Ok(root + [DotGit])
  {
    var g := root + [DotGit];
    IsGitDirMeaning(fs, g);
    assert g + ["objects"] + [DotGit] == g + ["objects", DotGit];
    assert g + ["objects"] + ["HEAD"] == g + ["objects", "HEAD"];
    assert IsGitDir(fs, g + ["objects"]) == Ok(false);
    assert root + [DotGit, "objects"] == g + ["objects"];
    assert Parent(g + ["objects"]) == g;
  }

  /** Bare rows: the bare root and `bare/objects` resolve to the bare root itself. */
  lemma BareRepoRows(fs: FileSystem, bare: Path)
    requires BareRepoLayout(fs, bare)
    ensures Resolve(fs, bare) == Ok(bare)
    ensures Resolve(fs, bare + ["objects"]) == Ok(bare)
  {
    IsGitDirMeaning(fs, bare);
    assert bare + ["objects"] + [DotGit] == bare + ["objects", DotGit];
    assert bare + ["objects"] + ["HEAD"] == bare + ["objects", "HEAD"];
    assert IsGitDir(fs, bare + ["objects"]) == Ok(false);
    assert Parent(bare + ["objects"]) == bare;
  }

  /** Parent-directory row: the directory above a repository, with no repository above it, does not resolve. */
  lemma ParentOfRepoFails(fs: FileSystem, root: Path)
    requires root != [] && PlainRepoLayout(fs, root)
    requires NoRepositoryOnPath(fs, Parent(root))
    ensures Resolve(fs, Parent(root)) == Err(PathNotFound)
    ensures Resolve(fs, root) == Ok(root + [DotGit])
  {
    ResolveNotFoundIff(fs, Parent(root));
    PlainRepoRows(fs, root);
  }

  /**
   * The whole path test over a working-tree repository and a bare one: `/`
   * and the parent of the working tree fail, every other row resolves to its
   * repository's git directory.
   */
  lemma PathTestRows(fs: FileSystem, plainRoot: Path, bareRoot: Path)
    requires plainRoot != [] && PlainRepoLayout(fs, plainRoot) && BareRepoLayout(fs, bareRoot)
    requires NoRepositoryOnPath(fs, Parent(plainRoot))
    ensures Resolve(fs, []) == Err(PathNotFound) && Resolve(fs, Parent(plainRoot)) == Err(PathNotFound)
    ensures var g := plainRoot + [DotGit];
      Resolve(fs, plainRoot) == Ok(g) && Resolve(fs, g) == Ok(g) && Resolve(fs, g + ["objects"]) == Ok(g)
    ensures Resolve(fs, bareRoot) == Ok(bareRoot) && Resolve(fs, bareRoot + ["objects"]) == Ok(bareRoot)
  {
    ParentOfRepoFails(fs, plainRoot);
    PlainRepoRows(fs, plainRoot);
    BareRepoRows(fs, bareRoot);
    assert NoRepositoryOnPath(fs, []) by {
      assert Parent(plainRoot)[..0] == [];
    }
    ResolveNotFoundIff(fs, []);
    assert plainRoot + [DotGit] + ["objects"] == plainRoot + [DotGit, "objects"];
  }

  /**
   * Any start path at any depth below a level that found a git directory, with
   * no other repository in between, resolves to that same git directory.
   */
  lemma InsideRepoResolvesToSameGitDir(fs: FileSystem, top: Path, p: Path)
    requires Under(top, p) && LevelOf(fs, top).Found?
    requires forall j :: |top| < j <= |p| ==> LevelOf(fs, p[..j]).Miss?
    ensures Resolve(fs, p) == Resolve(fs, top) == Ok(LevelOf(fs, top).gitDir)
  {
    assert p[..|top|] == top;
    ResolveStopsAtNearestLevel(fs, p, |top|);
    assert top[..|top|] == top;
    ResolveStopsAtNearestLevel(fs, top, |top|);
  }
}
