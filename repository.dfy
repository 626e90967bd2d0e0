/**
 * The repository handle: opened from any start path by resolving the git
 * directory, it owns the cache of open indexes and changes the disk below
 * `<gitDir>/<namespace>/indexes`. Each method is proved to take exactly the
 * step of the `Indexes` state machine.
 */
module Repository {
  import opened Results
  import opened Paths
  import GitDir
  import opened Indexes

  class Repo {
    const path: Path          // the resolved git directory
    const namespace: string   // private directory inside it
    var closed: bool
    var indexes: map<string, Index>
    var disk: set<Path>
    var nextSerial: nat

    /** The handle's fields as a state of the index state machine. */
    function Model(): State
      reads this
    {
      State(path, namespace, closed, indexes, disk, nextSerial)
    }

    ghost predicate Valid()
      reads this
    {
      Indexes.Valid(Model())
    }

    /** A handle on `path` with an empty cache over the disk as found. */
    constructor (path: Path, namespace: string, disk: set<Path>)
      ensures Valid() && Model() == Opened(path, namespace, disk)
    {
      this.path := path;
      this.namespace := namespace;
      this.closed := false;
      this.indexes := map[];
      this.disk := disk;
      this.nextSerial := 0;
    }

    /** `GetBleveIndex`. */
    method GetIndex(name: string) returns (r: Result<Index, RepoError>)
      requires Valid()
      modifies this
      ensures Valid()
      ensures Step(Model(), r) == GetStep(old(Model()), name)
    {
      if closed {
        return Err(UseAfterClose);
      }
      if !ValidName(name) {
        return Err(InvalidName(name));
      }
      if name in indexes {
        return Ok(indexes[name]);
      }
      ghost var s := Model();
      var dir := path + [namespace, IndexesDirName, name];
      var meta := dir + [MetaFileName];
      var store := dir + [StoreFileName];
      assert dir == IndexDir(s, name) && meta == MetaFile(s, name) && store == StoreFile(s, name);
      if dir in disk {
        // reopen the index found on disk
        if !(meta in disk && store in disk) {
          return Err(IndexOpenError(name));
        }
      } else {
        // create the parent directories, then a fresh index
        disk := disk + {path + [namespace], path + [namespace, IndexesDirName], dir};
        disk := disk + {meta, store};
        assert disk == s.disk + Created(s, name);
      }
      var index := Index(name, nextSerial);
      indexes := indexes[name := index];
      nextSerial := nextSerial + 1;
      r := Ok(index);
      assert Step(Model(), r) == Register(s, name, disk);
    }

    /** `ClearBleveIndex`. */
    method ClearIndex(name: string) returns (r: Result<(), RepoError>)
      requires Valid()
      modifies this
      ensures Valid()
      ensures Step(Model(), r) == ClearStep(old(Model()), name)
    {
      ghost var step := ClearStep(Model(), name);
      if closed {
        return Err(UseAfterClose);
      }
      if !ValidName(name) {
        return Err(InvalidName(name));
      }
      var dir := path + [namespace, IndexesDirName, name];
      disk := RemoveAll(disk, dir);
      indexes := indexes - {name};
      r := Ok(());
    }

    /** `Close`: succeeds on every handle, a closed one included. */
    method Close() returns (r: Result<(), RepoError>)
      requires Valid()
      modifies this
      ensures Valid()
      ensures r == Ok(())
      ensures Step(Model(), r) == CloseStep(old(Model()))
    {
      indexes := map[];
      closed := true;
      r := Ok(());
    }
  }

  /**
   * `OpenGoGitRepo`: resolves the git directory from `start` and opens a
   * handle on it, or reports why resolution failed.
   */
  method Open(fs: FileSystem, start: Path, namespace: string) returns (r: Result<Repo, GitDir.ResolveError>)
    ensures r.Ok? <==> GitDir.Resolve(fs, start).Ok?
    ensures r.Err? ==> r.error == GitDir.Resolve(fs, start).error
    ensures r.Ok? ==> fresh(r.value) && r.value.Valid()
    ensures r.Ok? ==> r.value.Model() == Opened(GitDir.Resolve(fs, start).value, namespace, fs.entries)
  {
    match GitDir.Resolve(fs, start)
    case Err(e) =>
      r := Err(e);
    case Ok(gitDir) =>
      var repo := new Repo(gitDir, namespace, fs.entries);
      r := Ok(repo);
  }

  /**
   * The path test over a working-tree repository at `plainRoot` and a bare one
   * at `bareRoot`: `/` and the parent of the working tree fail; the root, its
   * `.git` and `.git/objects` give `plainRoot/.git`; the bare root (twice, as
   * root and as git directory) and its `objects` give the bare root. Every
   * handle opened closes without error.
   */
  method OpenTestRows(fs: FileSystem, plainRoot: Path, bareRoot: Path, namespace: string)
    returns (outcomes: seq<Result<Path, GitDir.ResolveError>>)
    requires plainRoot != [] && GitDir.PlainRepoLayout(fs, plainRoot) && GitDir.BareRepoLayout(fs, bareRoot)
    requires GitDir.NoRepositoryOnPath(fs, Parent(plainRoot))
    ensures var g := plainRoot + [GitDir.DotGit];
      outcomes == [Err(GitDir.PathNotFound), Err(GitDir.PathNotFound), Ok(g), Ok(g), Ok(g), Ok(bareRoot), Ok(bareRoot), Ok(bareRoot)]
  {
    var g := plainRoot + [GitDir.DotGit];
    var starts := [[], Parent(plainRoot), plainRoot, g, g + ["objects"], bareRoot, bareRoot, bareRoot + ["objects"]];
    var expected := [Err(GitDir.PathNotFound), Err(GitDir.PathNotFound), Ok(g), Ok(g), Ok(g), Ok(bareRoot), Ok(bareRoot), Ok(bareRoot)];
    outcomes := [];
    for i := 0 to |starts|
      invariant |outcomes| == i
      invariant forall j :: 0 <= j < i ==> outcomes[j] == GitDir.Resolve(fs, starts[j])
    {
      var outcome := OpenRow(fs, starts[i], namespace);
      outcomes := outcomes + [outcome];
    }
    GitDir.PathTestRows(fs, plainRoot, bareRoot);
    assert forall j :: 0 <= j < |starts| ==> outcomes[j] == expected[j];
  }

  /** One row of the path test: open from `start`, and close the handle when opening succeeded. */
  method OpenRow(fs: FileSystem, start: Path, namespace: string) returns (outcome: Result<Path, GitDir.ResolveError>)
    ensures outcome == GitDir.Resolve(fs, start)
  {
    var r := Open(fs, start, namespace);
    if r.Ok? {
      var closing := r.value.Close();
      assert closing.Ok?;
      outcome := Ok(r.value.path);
    } else {
      outcome := Err(r.error);
    }
  }

  /**
   * The index test on a fresh working-tree repository: `a` is created with
   * its two files, `b` next to it, `a` is found again, and clearing `a`
   * removes its directory. `afterGets` and `afterClear` are the disk after
   * the gets and after the clear.
   */
  method IndexLifecycle(fs: FileSystem, root: Path, namespace: string)
    returns (indexA: Result<Index, RepoError>, indexB: Result<Index, RepoError>, again: Result<Index, RepoError>,
             cleared: Result<(), RepoError>, afterGets: set<Path>, afterClear: set<Path>)
    requires GitDir.PlainRepoLayout(fs, root)
    requires NoIndexesOnDisk(root + [GitDir.DotGit], namespace, fs.entries)
    ensures indexA.Ok? && indexB.Ok? && indexA.value != indexB.value && again == indexA && cleared.Ok?
    ensures root + [GitDir.DotGit] + [namespace, IndexesDirName, "a", MetaFileName] in afterGets
    ensures root + [GitDir.DotGit] + [namespace, IndexesDirName, "a", StoreFileName] in afterGets
    ensures root + [GitDir.DotGit] + [namespace, IndexesDirName, "b"] in afterGets
    ensures root + [GitDir.DotGit] + [namespace, IndexesDirName, "a"] !in afterClear
  {
    GitDir.PlainRepoRows(fs, root);
    var r := Open(fs, root, namespace);
    var repo := r.value;
    var gitDir := root + [GitDir.DotGit];
    IndexLifecycleScenario(gitDir, namespace, fs.entries);
    ghost var a1 := GetStep(Opened(gitDir, namespace, fs.entries), "a");
    ghost var b := GetStep(a1.state, "b");
    ghost var c := ClearStep(b.state, "a");

    indexA := repo.GetIndex("a");
    assert repo.Model() == a1.state && indexA == a1.result;
    indexB := repo.GetIndex("b");
    assert repo.Model() == b.state && indexB == b.result;
    again := repo.GetIndex("a");
    assert repo.Model() == b.state && again == a1.result;
    afterGets := repo.disk;
    cleared := repo.ClearIndex("a");
    assert repo.Model() == c.state && cleared == c.result;
    afterClear := repo.disk;

    assert gitDir + [namespace, IndexesDirName, "a", MetaFileName] in afterGets;
  }
}
