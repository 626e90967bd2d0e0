/**
 * The index manager of a repository handle as a state machine over values:
 * the in-memory cache (index name to open index), the on-disk entries, and
 * whether the handle is closed. `Repository.Repo` is proved to follow it.
 *
 * An index named `n` lives at `<gitDir>/<namespace>/indexes/<n>/` and consists
 * of the files `index_meta.json` and `store`.
 */
module Indexes {
  import opened Results
  import opened Paths

  const IndexesDirName: string := "indexes"
  const MetaFileName: string := "index_meta.json"
  const StoreFileName: string := "store"

  /** An open index; `serial` tells apart indexes opened at different times under one name. */
  datatype Index = Index(name: string, serial: nat)

  datatype RepoError = InvalidName(name: string) | IndexOpenError(name: string) | UseAfterClose

  datatype State = State(
    gitDir: Path,
    namespace: string,
    closed: bool,
    cache: map<string, Index>,
    disk: set<Path>,
    nextSerial: nat)  // how many indexes this handle has opened so far

  /** The outcome of one operation: the next state and what the caller gets back. */
  datatype Step<T> = Step(state: State, result: Result<T, RepoError>)

  function IndexDir(s: State, name: string): Path {
    s.gitDir + [s.namespace, IndexesDirName, name]
  }

  function MetaFile(s: State, name: string): Path {
    IndexDir(s, name) + [MetaFileName]
  }

  function StoreFile(s: State, name: string): Path {
    IndexDir(s, name) + [StoreFileName]
  }

  /** A name that stays inside the indexes directory: non-empty, no separator, not `.` or `..`. */
  predicate ValidName(name: string) {
    name != "" && name != "." && name != ".." && '/' !in name
  }

  /** The index's directory exists with both of its files. */
  predicate OnDisk(s: State, name: string) {
    IndexDir(s, name) in s.disk && MetaFile(s, name) in s.disk && StoreFile(s, name) in s.disk
  }

  /**
   * The handle's invariant: a closed handle caches nothing; every cached index
   * is registered under its own, valid, name, is backed by a complete directory on
   * disk, and has its own serial.
   */
  predicate Valid(s: State) {
    && (s.closed ==> s.cache == map[])
    && (forall n :: n in s.cache ==> s.cache[n].name == n && ValidName(n) && s.cache[n].serial < s.nextSerial && OnDisk(s, n))
    && (forall n, m :: n in s.cache && m in s.cache && n != m ==> s.cache[n].serial != s.cache[m].serial)
  }

  /** A freshly opened handle over the disk as found. */
  function Opened(gitDir: Path, namespace: string, disk: set<Path>): (s: State)
    ensures Valid(s) && !s.closed && s.cache == map[]
  {
    State(gitDir, namespace, false, map[], disk, 0)
  }

  /** The directories and files that creating an index adds. */
  function Created(s: State, name: string): set<Path> {
    {s.gitDir + [s.namespace], s.gitDir + [s.namespace, IndexesDirName],
     IndexDir(s, name), MetaFile(s, name), StoreFile(s, name)}
  }

  /** Registers a newly opened index under `name`. */
  function Register(s: State, name: string, disk: set<Path>): Step<Index> {
    var index := Index(name, s.nextSerial);
    Step(s.(cache := s.cache[name := index], disk := disk, nextSerial := s.nextSerial + 1), Ok(index))
  }

  /** `GetBleveIndex`: the cached index, else the one on disk, else a new one. */
  function GetStep(s: State, name: string): (t: Step<Index>)
    requires Valid(s)
    ensures Valid(t.state)
    ensures t.result.Ok? <==> !s.closed && ValidName(name) && (name in s.cache || IndexDir(s, name) !in s.disk || OnDisk(s, name))
    ensures t.result.Err? ==> t.state == s
    ensures t.result.Ok? ==> t.state.cache.Keys == s.cache.Keys + {name} && t.state.cache[name] == t.result.value
    ensures t.result.Ok? ==> t.result.value.name == name && OnDisk(t.state, name)
    ensures name in s.cache && !s.closed ==> t == Step(s, Ok(s.cache[name]))
    ensures t.result.Ok? && name !in s.cache ==> t.result.value.serial == s.nextSerial
    ensures forall n :: n in s.cache ==> n in t.state.cache && t.state.cache[n] == s.cache[n]
    ensures s.disk <= t.state.disk && t.state.disk - s.disk <= Created(s, name)
    ensures t.state.gitDir == s.gitDir && t.state.namespace == s.namespace && t.state.closed == s.closed
  {
    if s.closed then Step(s, Err(UseAfterClose))
    else if !ValidName(name) then Step(s, Err(InvalidName(name)))
    else if name in s.cache then Step(s, Ok(s.cache[name]))
    else if IndexDir(s, name) in s.disk then
      if OnDisk(s, name) then Register(s, name, s.disk)
      else Step(s, Err(IndexOpenError(name)))
    else Register(s, name, s.disk + Created(s, name))
  }

  /** The disk after removing `dir` and everything below it. */
  function RemoveAll(disk: set<Path>, dir: Path): (d: set<Path>)
    ensures forall e :: e in d <==> e in disk && !Under(dir, e)
  {
    set e | e in disk && !Under(dir, e)
  }

  /** Another index's files do not lie in the directory of `name`. */
  lemma SiblingNotUnder(s: State, name: string, n: string)
    requires n != name
    ensures !Under(IndexDir(s, name), IndexDir(s, n))
    ensures !Under(IndexDir(s, name), MetaFile(s, n))
    ensures !Under(IndexDir(s, name), StoreFile(s, n))
  {
    var k := |s.gitDir| + 2;
    assert IndexDir(s, n)[k] == n && IndexDir(s, name)[k] == name;
    assert MetaFile(s, n)[k] == n && StoreFile(s, n)[k] == n;
  }

  /** `ClearBleveIndex`: forgets the cached index and deletes its directory. */
  function ClearStep(s: State, name: string): (t: Step<()>)
    requires Valid(s)
    ensures Valid(t.state)
    ensures t.result.Ok? <==> !s.closed && ValidName(name)
    ensures t.result.Err? ==> t.state == s
    ensures t.result.Ok? ==> t.state.cache == s.cache - {name}
    ensures t.result.Ok? ==> forall e :: e in t.state.disk <==> e in s.disk && !Under(IndexDir(s, name), e)
    ensures t.state.gitDir == s.gitDir && t.state.namespace == s.namespace && t.state.closed == s.closed
    ensures t.state.nextSerial == s.nextSerial
  {
    if s.closed then Step(s, Err(UseAfterClose))
    else if !ValidName(name) then Step(s, Err(InvalidName(name)))
    else
      var t := Step(s.(cache := s.cache - {name}, disk := RemoveAll(s.disk, IndexDir(s, name))), Ok(()));
      assert forall n :: n in t.state.cache ==> OnDisk(t.state, n) by {
        forall n | n in t.state.cache ensures OnDisk(t.state, n) {
          SiblingNotUnder(s, name, n);
        }
      }
      t
  }

  /** `Close`: releases every cached index and marks the handle closed; it never fails. */
  function CloseStep(s: State): (t: Step<()>)
    requires Valid(s)
    ensures Valid(t.state)
    ensures t.result == Ok(())
    ensures t.state.closed && t.state.cache == map[] && t.state.disk == s.disk
  {
    Step(s.(closed := true, cache := map[]), Ok(()))
  }

  /** Asking twice for one index gives the same index back and touches neither cache nor disk. */
  lemma GetTwiceSameIndex(s: State, name: string)
    requires Valid(s) && GetStep(s, name).result.Ok?
    ensures var t := GetStep(s, name); GetStep(t.state, name) == t
  {
  }

  /** After clearing, asking for the index yields a new one (never one handed out before) on a fresh directory. */
  lemma ClearThenGetIsFresh(s: State, name: string)
    requires Valid(s) && !s.closed && ValidName(name)
    ensures var c := ClearStep(s, name).state; var g := GetStep(c, name);
      && g.result.Ok?
      && g.result.value.serial == s.nextSerial
      && (forall n :: n in s.cache ==> s.cache[n] != g.result.value)
      && OnDisk(g.state, name)
  {
    var c := ClearStep(s, name).state;
    assert Under(IndexDir(s, name), IndexDir(s, name));
    assert IndexDir(c, name) !in c.disk;
  }

  /** Clearing a name that was never created succeeds and changes nothing, on disk or in memory. */
  lemma ClearNeverCreated(s: State, name: string)
    requires Valid(s) && !s.closed && ValidName(name)
    requires name !in s.cache && forall e :: e in s.disk ==> !Under(IndexDir(s, name), e)
    ensures ClearStep(s, name) == Step(s, Ok(()))
  {
    assert RemoveAll(s.disk, IndexDir(s, name)) == s.disk;
    assert s.cache - {name} == s.cache;
  }

  /** Clearing one index leaves every entry outside its directory as it was. */
  lemma ClearLeavesOthers(s: State, name: string, e: Path)
    requires Valid(s) && !s.closed && ValidName(name)
    requires !Under(IndexDir(s, name), e)
    ensures e in ClearStep(s, name).state.disk <==> e in s.disk
  {
  }

  /** A closed handle refuses index operations and can be closed again without error. */
  lemma ClosedHandleRefuses(s: State, name: string)
    requires Valid(s)
    ensures var c := CloseStep(s).state;
      && GetStep(c, name) == Step(c, Err(UseAfterClose))
      && ClearStep(c, name) == Step(c, Err(UseAfterClose))
      && CloseStep(c) == Step(c, Ok(()))
  {
  }

  /** No entry of the disk lies in the namespace's `indexes` directory. */
  ghost predicate NoIndexesOnDisk(gitDir: Path, namespace: string, disk: set<Path>) {
    forall e :: e in disk ==> !Under(gitDir + [namespace, IndexesDirName], e)
  }

  /**
   * The index lifecycle scenario on a fresh handle: get `a` creates its files,
   * get `b` creates a sibling directory, a second get `a` returns the first
   * `a` unchanged, and clearing `a` removes its directory while `b` stays.
   */
  lemma IndexLifecycleScenario(gitDir: Path, namespace: string, disk: set<Path>)
    requires NoIndexesOnDisk(gitDir, namespace, disk)
    ensures var s0 := Opened(gitDir, namespace, disk);
      var a1 := GetStep(s0, "a");
      var b := GetStep(a1.state, "b");
      var a2 := GetStep(b.state, "a");
      var c := ClearStep(a2.state, "a");
      && a1.result.Ok? && b.result.Ok? && a2.result.Ok? && c.result.Ok?
      && gitDir + [namespace, IndexesDirName, "a", MetaFileName] in a1.state.disk
      && gitDir + [namespace, IndexesDirName, "a", StoreFileName] in a1.state.disk
      && gitDir + [namespace, IndexesDirName, "b"] in b.state.disk
      && a2.result == a1.result && a2.state == b.state
      && a1.result.value != b.result.value
      && gitDir + [namespace, IndexesDirName, "a"] !in c.state.disk
      && OnDisk(c.state, "b") && c.state.cache.Keys == {"b"}
  {
    LifecycleGets(gitDir, namespace, disk);
    var s0 := Opened(gitDir, namespace, disk);
    var a1 := GetStep(s0, "a");
    var b := GetStep(a1.state, "b");
    var c := ClearStep(b.state, "a");
    assert gitDir + [namespace, IndexesDirName, "a", MetaFileName] == MetaFile(a1.state, "a");
    assert gitDir + [namespace, IndexesDirName, "a", StoreFileName] == StoreFile(a1.state, "a");
    assert gitDir + [namespace, IndexesDirName, "b"] == IndexDir(b.state, "b");
    assert gitDir + [namespace, IndexesDirName, "a"] == IndexDir(b.state, "a");
    assert Under(IndexDir(b.state, "a"), IndexDir(b.state, "a"));
    assert "b" in c.state.cache;
  }

  /** The three gets of the lifecycle scenario: two new indexes, then the first one again from the cache. */
  lemma LifecycleGets(gitDir: Path, namespace: string, disk: set<Path>)
    requires NoIndexesOnDisk(gitDir, namespace, disk)
    ensures var s0 := Opened(gitDir, namespace, disk);
      var a1 := GetStep(s0, "a");
      var b := GetStep(a1.state, "b");
      && a1.result.Ok? && b.result.Ok? && GetStep(b.state, "a") == Step(b.state, a1.result)
      && a1.result.value != b.result.value
      && OnDisk(a1.state, "a") && OnDisk(b.state, "b")
      && b.state.cache.Keys == {"a", "b"}
      && a1.state.gitDir == b.state.gitDir == gitDir && a1.state.namespace == b.state.namespace == namespace
      && !b.state.closed
  {
    var s0 := Opened(gitDir, namespace, disk);
    var dir := gitDir + [namespace, IndexesDirName];
    assert Under(dir, IndexDir(s0, "a")) && Under(dir, IndexDir(s0, "b"));
    var a1 := GetStep(s0, "a");
    assert IndexDir(s0, "b") !in Created(s0, "a") by {
      assert IndexDir(s0, "b")[|gitDir| + 2] == "b";
      assert MetaFile(s0, "a")[|gitDir| + 2] == "a";
      assert StoreFile(s0, "a")[|gitDir| + 2] == "a";
    }
    var b := GetStep(a1.state, "b");
    assert b.result.value.serial == 1 && a1.result.value.serial == 0;
  }
}
