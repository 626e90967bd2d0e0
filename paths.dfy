/**
 * Absolute, clean filesystem paths and an abstract filesystem.
 *
 * A path is the list of its segments: `[]` is `/`, `["tmp", "r", ".git"]` is
 * `/tmp/r/.git`. A filesystem is the set of paths that exist (files and
 * directories alike) together with the set of paths whose `stat` is refused.
 */
module Paths {

  type Path = seq<string>

  /** The directory holding `p`; like `filepath.Dir`, the parent of `/` is `/`. */
  function Parent(p: Path): (q: Path)
    ensures p != [] ==> |q| == |p| - 1 && q == p[..|p| - 1]
    ensures p == [] ==> q == []
  {
    if p == [] then [] else p[..|p| - 1]
  }

  /** `e` is `dir` itself or lies somewhere below it. */
  predicate Under(dir: Path, e: Path) {
    |dir| <= |e| && e[..|dir|] == dir
  }

  datatype FileSystem = FileSystem(entries: set<Path>, denied: set<Path>)

  /** What `os.Stat` reports for a path. */
  datatype StatResult = Present | Absent | Denied

  function Stat(fs: FileSystem, p: Path): StatResult {
    if p in fs.denied then Denied
    else if p in fs.entries then Present
    else Absent
  }
}
