# git-bug storage location, index lifecycle and credential listing — a Dafny model

This project models two parts of git-bug, a bug tracker that keeps its data
inside the git repository itself.

1. **Repository location and index lifecycle** (`repository/gogit_test.go`).
   `OpenGoGitRepo` takes any start path and finds the git directory. It walks
   upward from the start path. At each level a `.git` entry wins: that is the
   working-tree layout. Otherwise a directory that holds the git markers
   (`HEAD`, `objects`, `refs`) is itself the git directory: that is the bare
   layout, or a start path inside a `.git`. Reaching `/` without a match fails.
   The opened handle keeps a cache of open search indexes. An index named `n`
   lives at `<gitDir>/<namespace>/indexes/<n>/` and consists of
   `index_meta.json` and `store`. `GetBleveIndex` returns the cached index,
   or reopens the one found on disk, or creates a new one. `ClearBleveIndex`
   drops the cached index and deletes its directory. `Close` releases
   everything.
2. **Credential listing** (`commands/bridge/bridge_auth.go`, `runBridgeAuth`).
   The command prints one line per credential. The value column shows the
   value of a token and nothing for any other kind of credential. The
   metadata column holds `key:value` entries, sorted and joined with `,`.

Files:

- `results.dfy`: the `Result` datatype.
- `paths.dfy`: paths as segment lists. A filesystem is the set of existing
  paths plus the set of paths whose `stat` is refused.
- `resolve.dfy` (module `GitDir`): the marker check `IsGitDir`, one level of
  the walk `LevelOf`, the upward walk `Resolve`, and lemmas for every row of
  the path test.
- `index_state.dfy` (module `Indexes`): the index manager as a state machine
  over values (`GetStep`, `ClearStep`, `CloseStep`), with its invariant and
  the lifecycle lemmas.
- `repository.dfy` (module `Repository`): the handle as a class `Repo`. Each
  method is proved to take exactly one step of that state machine. `Open`
  resolves a start path and opens a handle. `OpenTestRows` replays all eight
  rows of the path test against the class (through `OpenRow`), and
  `IndexLifecycle` replays the index test.
- `sorting.dfy`, `strings.dfy`: Go's string order, `sort.Strings` (an
  in-place insertion sort proved sorted and a permutation), and
  `strings.Join` with the split that undoes it.
- `bridge_auth.dfy` (module `BridgeAuth`): the metadata rendering and
  `runBridgeAuth`. Go visits a map in an unspecified order, so that order is
  a parameter. The result is proved equal to a rendering that does not
  mention the order.

Strings are compared character by character. Go compares strings byte by
byte, and on UTF-8 text the two orders agree.

The implementations of `OpenGoGitRepo`, `GetBleveIndex`, `ClearBleveIndex`
and `Close` are modelled from their observable behaviour only. The test file
pins down part of this behaviour. The model fixes the rest as follows: a
`.git` child is checked first, then the bare markers; index names are
validated; a closed handle refuses index operations; a partially present
index directory is an open error.

`Resolve`, `LevelOf` and `Columns` compute only; the lemmas
`ResolveReturnsGitDirFor`, `LevelOfMeaning` and `ColumnsSplit` state what
they promise.

## Model

| member | source | states |
|---|---|---|
| `GitDir.MarkersFrom` | repository/gogit_test.go:41-43 | checking the markers in order reports a refused stat as a permission error naming a path whose stat was refused |
| `GitDir.IsGitDir` | repository/gogit_test.go:41-43 | the git-directory check fails only with a permission error naming a path whose stat was refused |
| `GitDir.IsGitDirMeaning` | repository/gogit_test.go:41-43 | a directory counts as a git directory exactly when every marker is present in it; if no marker's stat is refused the check does not fail |
| `GitDir.MarkersFromMeaning` | repository/gogit_test.go:41-43 | checking the markers from position i answers true exactly when all remaining markers are present, and gives an answer when none is refused |
| `GitDir.LevelOfMeaning` | repository/gogit_test.go:35-43 | one level of the walk finds something exactly when its `.git` entry is present, or is absent and the level holds every marker; it finds the `.git` entry when present and the level itself otherwise; a blocked level names a refused stat |
| `GitDir.ResolveReturnsGitDirFor` | repository/gogit_test.go:46-53 | what the walk returns is the `.git` entry of an ancestor-or-self of the start path, or an ancestor-or-self holding every marker; a permission error names a refused stat |
| `GitDir.ResolveStopsAtNearestLevel` | repository/gogit_test.go:46-53 | resolution returns what the nearest ancestor-or-self holding a repository yields, whatever lies below it |
| `GitDir.ResolveNotFoundIff` | repository/gogit_test.go:30-33 | resolution fails with PathNotFound exactly when no level from `/` down to the start path holds a repository |
| `GitDir.ResolveFoundAtSomeLevel` | repository/gogit_test.go:46-53 | every successful resolution returns a git directory found at one of the start path's ancestors-or-self |
| `GitDir.RootFails` | repository/gogit_test.go:31 | `/` outside any repository fails to resolve |
| `GitDir.ParentOfRepoFails` | repository/gogit_test.go:33 | the parent directory of a working-tree repository, with no repository above it, fails to resolve, while the repository root itself resolves |
| `GitDir.PlainRepoRows` | repository/gogit_test.go:35-38 | the working-tree root, `<root>/.git` and `<root>/.git/objects` all resolve to `<root>/.git` |
| `GitDir.BareRepoRows` | repository/gogit_test.go:40-43 | the bare root (which is also its git directory) and `<bare>/objects` resolve to the bare root |
| `GitDir.PathTestRows` | repository/gogit_test.go:25-44 | with a working tree and a bare repository laid out as a fresh init makes them, `/` and the working tree's parent fail and every other row resolves to its repository's git directory |
| `GitDir.InsideRepoResolvesToSameGitDir` | repository/gogit_test.go:36-43 | any path at any depth below a level that found a git directory, with no nested repository in between, resolves to that same git directory |
| `Indexes.Opened` | repository/gogit_test.go:47 | a freshly opened handle is open, caches nothing and satisfies the handle invariant |
| `Indexes.GetStep` | repository/gogit_test.go:67-82 | get succeeds exactly when the handle is open, the name is valid and the index is cached, absent from disk or complete on disk; a failure changes nothing; a cached index comes back unchanged; otherwise a new index with a new serial is cached and both files exist; the disk only gains the index's own directories and files; the invariant is kept |
| `Indexes.ClearStep` | repository/gogit_test.go:84-87 | clear succeeds exactly when the handle is open and the name valid; it removes the name from the cache and exactly the entries under the index's directory; a failure changes nothing; the invariant is kept |
| `Indexes.CloseStep` | repository/gogit_test.go:51-54 | close always succeeds, leaves the handle closed with an empty cache and leaves the disk as it was |
| `Indexes.GetTwiceSameIndex` | repository/gogit_test.go:79-82 | getting an index a second time returns the same index and changes neither cache nor disk |
| `Indexes.ClearThenGetIsFresh` | repository/gogit_test.go:84-87 | after a clear, getting the index succeeds with a new index never handed out before, backed by a complete directory |
| `Indexes.ClearNeverCreated` | repository/gogit_test.go:84-86 | clearing a name that is neither cached nor on disk succeeds and changes nothing |
| `Indexes.ClearLeavesOthers` | repository/gogit_test.go:84-87 | clearing an index leaves every entry outside its directory as it was |
| `Indexes.ClosedHandleRefuses` | repository/gogit_test.go:54 | after close, get and clear fail with UseAfterClose and a second close succeeds without change |
| `Indexes.IndexLifecycleScenario` | repository/gogit_test.go:63-88 | on a fresh handle: get `a` creates `indexes/a/index_meta.json` and `indexes/a/store`; get `b` creates `indexes/b`; get `a` again returns the first `a` with nothing changed; clear `a` removes `indexes/a`; `b` stays complete and cached |
| `Repository.Repo.constructor` | repository/gogit_test.go:47 | a new handle is valid, open, with an empty cache over the disk as found |
| `Repository.Repo.GetIndex` | repository/gogit_test.go:68-82 | the handle's new state and the result are exactly those of `GetStep`, and the invariant holds |
| `Repository.Repo.ClearIndex` | repository/gogit_test.go:85-87 | the handle's new state and the result are exactly those of `ClearStep`, and the invariant holds |
| `Repository.Repo.Close` | repository/gogit_test.go:51-54 | close returns no error, and the new state is that of `CloseStep` |
| `Repository.OpenRow` | repository/gogit_test.go:47-55 | one row: opening gives exactly what the walk gives, and a handle that opened closes without error |
| `Repository.OpenTestRows` | repository/gogit_test.go:25-56 | the eight rows of the path test give, in order: two failures, three times `plainRoot/.git`, three times the bare root |
| `Repository.IndexLifecycle` | repository/gogit_test.go:63-88 | against the class: get `a` and get `b` succeed with distinct indexes, `a`'s two files and `b`'s directory are on disk, a second get `a` returns the first `a`, and after clearing `a` its directory is gone |
| `Repository.Open` | repository/gogit_test.go:46-53 | opening succeeds exactly when resolution does, reports resolution's error otherwise, and on success gives a fresh valid handle on the resolved git directory |
| `Sorting.SortStrings` | commands/bridge/bridge_auth.go:57 | `sort.Strings` leaves the slice in increasing order and a permutation of what it was |
| `Sorting.SortedUnique` | commands/bridge/bridge_auth.go:57 | two sorted sequences holding the same strings equally often are equal |
| `Sorting.InsertSorted` | commands/bridge/bridge_auth.go:57 | inserting a string into a sorted sequence keeps it sorted |
| `Sorting.InsertMultiset` | commands/bridge/bridge_auth.go:57 | inserting adds exactly the one string and loses none |
| `Sorting.LessEqTotal` | commands/bridge/bridge_auth.go:57 | any two strings are comparable |
| `Sorting.LessEqTransitive` | commands/bridge/bridge_auth.go:57 | the string order is transitive |
| `Sorting.LessEqAntisymmetric` | commands/bridge/bridge_auth.go:57 | strings below each other are equal |
| `Strings.JoinEnds` | commands/bridge/bridge_auth.go:58 | the joined string starts with the first part and ends with the last one: no leading or trailing separator |
| `Strings.Join` | commands/bridge/bridge_auth.go:58 | joining no parts gives the empty string; otherwise the length is the parts' total length plus one separator between each two parts |
| `Strings.SplitJoin` | commands/bridge/bridge_auth.go:58 | splitting at the separator gives back the parts when none contains it |
| `BridgeAuth.PermutedKeysPermutedEntries` | commands/bridge/bridge_auth.go:54-56 | visiting the same keys in another order gathers the same entries in another order |
| `BridgeAuth.VisitsOnlyKeys` | commands/bridge/bridge_auth.go:54 | an iteration over a map, which visits each key exactly once, visits nothing but the map's keys |
| `BridgeAuth.SortedEntriesAreMetaEntries` | commands/bridge/bridge_auth.go:53-57 | the sorted entries gathered in any iteration order are one and the same list: the rendering does not depend on map iteration order |
| `BridgeAuth.MetaEntriesShape` | commands/bridge/bridge_auth.go:53-57 | there is exactly one entry per metadata pair, and the entries are sorted |
| `BridgeAuth.EveryPairHasAnEntry` | commands/bridge/bridge_auth.go:55 | every metadata pair appears as `key:value` |
| `BridgeAuth.EveryEntryIsAPair` | commands/bridge/bridge_auth.go:55 | every entry is `key:value` for some metadata pair |
| `BridgeAuth.EmptyMetadata` | commands/bridge/bridge_auth.go:58 | empty metadata renders as the empty string |
| `BridgeAuth.MetaTextSplits` | commands/bridge/bridge_auth.go:53-58 | when no key or value contains `,`, the metadata column splits back into exactly the sorted entries, as many as there are pairs |
| `BridgeAuth.FormatMetadata` | commands/bridge/bridge_auth.go:53-58 | gathering `key:value` in the runtime's iteration order, sorting in place and joining gives the order-independent metadata text |
| `BridgeAuth.ValueColumn` | commands/bridge/bridge_auth.go:47-51 | a token shows its value, and only a token can show a non-empty value |
| `BridgeAuth.ColumnsSplit` | commands/bridge/bridge_auth.go:60-66 | a printed line ends with a newline and, when no column holds a space, splits at spaces back into id, target, kind, value and metadata, in that order |
| `BridgeAuth.FormatLine` | commands/bridge/bridge_auth.go:45-66 | the line of one credential is its id, target, kind, value column and order-independent metadata text, whatever order the metadata is visited in |
| `BridgeAuth.FormatLines` | commands/bridge/bridge_auth.go:44-67 | one line per credential, in listed order, each the line of that credential |
| `BridgeAuth.RunBridgeAuth` | commands/bridge/bridge_auth.go:38-67 | a listing error is returned unchanged; otherwise exactly one line per credential, in listed order, made of id, target, kind, value column and metadata text |

## Left out

- `.git` entries are taken to be directories. A `.git` file that points to a git directory elsewhere, as in submodules, is not modelled.
- Start paths are taken to be absolute and clean. Turning a relative path into an absolute one (`filepath.Abs`) is not modelled.
- Only refused `stat` calls during resolution are modelled as permission errors. The read/write access check on the resolved directory, and disk errors while creating or removing index files, are not modelled.
- The search engine is opaque. The model leaves out the content of `index_meta.json` and `store`, the documents in an index, version checks, and any failure when opening a complete index.
- Repository.Repo.Close: closing an index cannot fail in the model, so close always succeeds. The first-error aggregation over index close errors is not modelled.
- The mutex around the index cache and any coordination between processes: calls are sequential.
- `Root()`, local storage beyond the index directories, clocks, the keyring, and the generic repository test suite (`RepoTest`, `CreateGoGitTestRepo`, `goGitRepoDir`) are not part of this model.
- Index names are rejected when empty, `.`, `..` or containing `/`. Rejecting `.` and `..` keeps a name from aliasing the `indexes` directory or its parent, which a clear would then wipe. `\` is not treated as a separator.
- From `runBridgeAuth`: terminal colours, the target padding done by `text.LeftPadMaxLine`, the shortening of ids by `Human()`, and printing to the output stream. Lines are returned as strings, in order. The credential store behind `auth.List` is a parameter.
- BridgeAuth.MetaTextSplits: the metadata text splits back into its entries only when no key or value contains `,`. Otherwise the printed column does not determine the entries.
- `newBridgeAuthCommand` and the other command wiring (`commands/bridge/bridge.go`, `commands/user/user.go`) and the editor helper (`commands/input/input.go`) are not part of this model: they are command-line plumbing and process I/O.
