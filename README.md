# modified-time-fix, modelled in Dafny

`modified-time-fix` gives a directory the modification time of its entries:
the earliest or the latest of them, chosen by `Date::Earliest` or
`Date::Latest`. `fix_modified_time` does this for one directory.
`walk_and_fix_modified_time` does it for a whole tree. It first discovers
every directory below the root with an explicit-stack depth-first search
(`get_subdirs`), which returns them in post-order. It then fixes them in
that order, so each directory is fixed after its subdirectories. It stops at the first
error and keeps the fixes already written.

The model works over an abstract, in-memory filesystem (`filesystem.dfy`,
module `AbstractFs`):

- A path is the sequence of names that leads to a node. The entry `name` of
  directory `dir` has path `dir + [name]`.
- The tree is a map from paths to nodes. A node has:
  - an integer modification time;
  - a directory flag;
  - its listing, in listing order;
  - three flags that make listing, reading metadata and writing the
    modification time succeed or fail.

  A listing item is either a name or `EntryError`. `EntryError` stands for
  an item whose read fails.
- The class `FileSystem` holds the tree as mutable state. Its two methods
  are the core's calls that can report an error: `ReadDir` (`fs::read_dir`)
  and `SetFileMtime` (`set_file_mtime`).
- The core makes two more filesystem calls, whose failures it swallows:
  `DirEntry::metadata` (src/lib.rs:45) and `Path::is_dir` (src/lib.rs:84).
  They are modelled as pure reads of the tree, `EntryTime` and `IsDir`. Both
  read the same `metadataReadable` flag of the entry's node.

The other modules:

- `fix.dfy` (module `MtimeFix`) models `Date` and `fix_modified_time`.
  `MtimeFix.Date`, with variants `Earliest` and `Latest`, is the enum `Date`
  (src/lib.rs:10-20). The module has:
  - the pure pipeline that selects a time, `Select` over `EntryTimes`;
  - its effect on the tree, `Fix`;
  - the method `FixModifiedTime`, which performs the write on a `FileSystem`.
- `discovery.dfy` (module `Discovery`) models `get_subdirs`:
  - `GetSubdirs` is the stack loop itself;
  - it is proved equal to `Discover`. That function is built from `Order`,
    the pre-order in which the stack pops directories (last-listed
    subdirectory first), then reversed;
  - on success the result is proved to be `PostOrder`, the post-order
    defined directly on the tree (`DiscoverIsPostOrder`).
- `walk.dfy` (module `Walk`) models `walk_and_fix_modified_time`:
  - `WalkAndFixModifiedTime` is the loop that stops at the first error;
  - it is proved equal to `WalkRun`: `Discover`, then `FixAll`, a fold of `Fix`
    over the paths from first to last that short-circuits on the first
    error. The fold itself runs as the loop `FixEach`.

Behaviour of the code that the model makes explicit:

- **Subdirectories are fixed first, and their new times count.** Each
  directory is listed again when it is fixed. Its subdirectories are already
  fixed by then, so their new times count
  (`WalkFixesSubtreeBeforeDirectory`, `WalkAggregatesEveryReachableDirectory`).
- **Subdirectories count like files.** The code takes the metadata of every
  entry, so subdirectory entries count like files
  (`FixPicksExtremeEntryTime`).
- **The fix is idempotent.** Fixing a directory again, or walking a tree
  again after a successful walk, changes nothing (`FixIsIdempotent`,
  `WalkIsIdempotent`).
- **Symbolic links are followed.** `is_dir` follows symbolic links; see
  "Left out".

## Model

| member | source | states |
|---|---|---|
| AbstractFs.Listing | src/lib.rs:36-42 | listing succeeds exactly for a present, listable directory and yields its entries. Otherwise the error is NotFound, NotADirectory or PermissionDenied for that path |
| AbstractFs.EntryTime | src/lib.rs:44-46 | an item yields a time exactly when it is a name whose node exists and has readable metadata, and the time is that node's mtime |
| AbstractFs.IsDir | src/lib.rs:84 | a path counts as a directory exactly when its node exists, its metadata can be read and it is a directory; any failure reads as "not a directory" |
| AbstractFs.SetMtime | src/lib.rs:53 | the write succeeds exactly for a present, writable node. It then changes that node's mtime and nothing else |
| AbstractFs.FileSystem.ReadDir | src/lib.rs:42 | returns the listing of the current tree and changes nothing |
| AbstractFs.FileSystem.SetFileMtime | src/lib.rs:53 | on success the tree gets the new mtime at that path. On failure the tree is unchanged and the error is returned |
| MtimeFix.Select | src/lib.rs:48-51 | `min`/`max` of the collected times: none exactly for no times. Otherwise a member that is at most (Earliest) or at least (Latest) every time |
| MtimeFix.SelectDependsOnValuesOnly | src/lib.rs:43-51 | the selected time depends only on the set of values collected, not on their order or repetition |
| MtimeFix.EntryTimes | src/lib.rs:43-46 | the collected times are exactly the times of the items whose entry and metadata reads succeed. Failing items are dropped, never an error |
| MtimeFix.EntryTimesUnaffected | src/lib.rs:43-46 | the collected times of `dir` are unchanged by an update of any node not strictly below `dir` |
| MtimeFix.Fix | src/lib.rs:41-55 | the effect of one call on the tree: the listing error; or the tree unchanged when no entry time can be read; or the outcome of writing the selected time. What this means is stated by the `Fix*` lemmas below |
| MtimeFix.FixModifiedTime | src/lib.rs:41-55 | succeeds exactly when `Fix` does and leaves the tree `Fix` computes. On an error it returns that error and leaves the tree unchanged |
| MtimeFix.FixFailsOnlyOnListingOrWrite | src/lib.rs:36-53 | the fix fails exactly when the directory cannot be listed, or when there is a time to write and the write is refused. A listing failure returns the listing's error |
| MtimeFix.FixChangesOnlyTheDirectoryMtime | src/lib.rs:53 | on success only the directory's own mtime may change. Its entries, flags and every other node keep their state |
| MtimeFix.FixPicksExtremeEntryTime | src/lib.rs:48-53 | on success the directory's new mtime is the time of one of its entries, and it is at most (Earliest) or at least (Latest) the time of every entry with readable metadata |
| MtimeFix.FixWithoutTimesIsNoOp | src/lib.rs:32 | an empty listable directory, or one where no entry has readable metadata, gives Ok with the tree unchanged |
| MtimeFix.FixIgnoresListingOrder | src/lib.rs:43-51 | reordering the listing changes neither whether the fix succeeds nor the written mtime |
| MtimeFix.FixIsIdempotent | src/lib.rs:41-55 | fixing a directory a second time gives the same result as fixing it once |
| MtimeFix.FixNoOpSurvivesUnrelatedWrite | src/lib.rs:42-53 | a directory that the fix would leave as it is stays so after a write to any other node that is not strictly below it |
| MtimeFix.TwoFilesExample | tests/modified-time-fix.rs:44-65 | entries stamped 1984 and 1969 give 1969 with Earliest and 1984 with Latest |
| Discovery.Subdirs | src/lib.rs:84 | the pushed paths are exactly the children `dir + [name]` of listed names whose node is a directory with readable metadata |
| Discovery.Reverse | src/lib.rs:89 | the reversed output has the same length, and position `i` holds the element from position `|s|-1-i` |
| Discovery.ReverseMembers | src/lib.rs:89 | reversing keeps exactly the same members |
| Discovery.Order | src/lib.rs:79-87 | the pop order below `p` starts with `p`, and every popped path lies below `p` |
| Discovery.Children | src/lib.rs:86 | every path popped for the pushed subdirectories lies below one of them |
| Discovery.ChildrenIsForest | src/lib.rs:86 | the pops for the subdirectories of `p` are those of a stack holding exactly those subdirectories |
| Discovery.ForestAppend | src/lib.rs:86 | pushing more paths on a stack pops all of their subtrees before those of the paths already on it |
| Discovery.ForestMembers | src/lib.rs:79-87 | a path is popped from a stack exactly when it is popped below one of the stack's paths |
| Discovery.FirstUnlistable | src/lib.rs:80 | the index of the first path that cannot be listed, with every earlier path listable, or none when all are listable |
| Discovery.Forest | src/lib.rs:79-87 | the pops for an arbitrary stack: the subtrees of its paths, the top (last) one first. It is the loop invariant of `GetSubdirs` |
| Discovery.Discover | src/lib.rs:74-92 | the result of `get_subdirs`: the listing error of the first popped directory that cannot be listed, or all popped directories in reverse pop order. What this means is stated by the `Discover*` lemmas below |
| Discovery.GetSubdirs | src/lib.rs:74-92 | the stack loop returns exactly `Discover`: the first listing error in pop order, or the popped paths reversed |
| Discovery.OrderSound | src/lib.rs:79-87 | every popped path is reachable from the root through subdirectory entries |
| Discovery.OrderComplete | src/lib.rs:79-87 | when every popped path can be listed, every directory reachable from the root is popped |
| Discovery.SubdirsDistinct | src/lib.rs:84 | a listing with distinct names pushes distinct paths |
| Discovery.OrderOrdered | src/lib.rs:79-87 | each path is popped once, and never before one of its ancestors |
| Discovery.ChildrenOrdered | src/lib.rs:86 | the same for the pops below distinct pushed subdirectories |
| Discovery.DiscoverEndsWithRoot | src/lib.rs:75-89 | on success the output is non-empty and its last element is the root |
| Discovery.DiscoverFindsExactlyTheReachable | src/lib.rs:74-92 | on success the output holds exactly the directories reachable from the root, the root included |
| Discovery.DiscoverOnceEachDescendantsFirst | src/lib.rs:82-89 | on success each directory occurs once, and never after one of its ancestors |
| Discovery.DiscoverSubdirsBeforeParent | src/lib.rs:82-89 | on success every subdirectory of an output directory occurs earlier in the output |
| Discovery.DiscoverFailsOnUnlistable | src/lib.rs:80 | a failure is the listing error of a popped path that cannot be listed. A root that cannot be listed fails with its own listing error. Discovery succeeds exactly when every directory reachable from the root can be listed, however deep |
| Discovery.PostOrder | src/lib.rs:73 | the post-order below `p`, defined on the tree alone: the subtrees of its subdirectories in listing order, then `p`, which therefore comes last |
| Discovery.ReverseAppend | src/lib.rs:89 | reversing a concatenation reverses the order of the parts |
| Discovery.ReversedOrderIsPostOrder | src/lib.rs:79-89 | the reversed pop order below `p` is exactly the post-order below `p` |
| Discovery.ReversedChildren | src/lib.rs:86-89 | the reversed pops below the pushed subdirectories are their post-orders in listing order |
| Discovery.DiscoverIsPostOrder | src/lib.rs:73-89 | on success `get_subdirs` returns exactly the post-order of the tree below the root: each subtree is contiguous and ends with its root, and sibling subtrees follow listing order |
| Discovery.SubdirsSameShape | src/lib.rs:84 | the pushed subdirectories do not depend on modification times |
| Discovery.OrderSameShape | src/lib.rs:79-87 | the pop order does not depend on modification times |
| Discovery.ChildrenSameShape | src/lib.rs:86 | the pops below pushed subdirectories do not depend on modification times |
| Discovery.DiscoverIgnoresMtimes | src/lib.rs:74-92 | trees that differ only in modification times give the same discovery outcome |
| Walk.FixAll | src/lib.rs:64-68 | the fold keeps the set of paths in the tree |
| Walk.WalkRun | src/lib.rs:63-69 | the walk keeps the set of paths in the tree |
| Walk.WalkAndFixModifiedTime | src/lib.rs:63-69 | the method leaves the tree `WalkRun` computes and returns Ok exactly when `WalkRun` has no error, otherwise `WalkRun`'s error. A discovery error returns an error with the tree unchanged |
| Walk.FixEach | src/lib.rs:65-68 | the loop leaves the tree `FixAll` computes and returns Ok exactly when `FixAll` has no error, otherwise `FixAll`'s error |
| Walk.FixAllStep | src/lib.rs:66-67 | the run over the paths from `i` on fixes `paths[i]` first, then stops on its error or goes on from its result |
| Walk.StopIndex | src/lib.rs:66-67 | a failed run has a stopping index `k`: the run over `paths[..k]` succeeds with the final tree, and fixing `paths[k]` on that tree gives the returned error |
| Walk.FixAllComposes | src/lib.rs:66-67 | a run over `a + b` is a run over `a`, then `b` from that state unless `a` stopped at an error |
| Walk.FixAllFrame | src/lib.rs:66 | a run changes only modification times, and only those of the paths it is given |
| Walk.FixAllStopsAtFirstError | src/lib.rs:57-68 | a failed run stopped at some `paths[k]`: the fixes of `paths[..k]` stay in place, `paths[k]`'s fix failed with the returned error, and every other node is unchanged |
| Walk.FixAllSettles | src/lib.rs:66 | an error-free run over distinct paths, none before one of its descendants, leaves every path settled: fixing it again changes nothing |
| Walk.FixAllKeepsSettled | src/lib.rs:66 | a settled directory stays settled through an error-free run that fixes neither it nor anything below it |
| Walk.FixAllKeepsSettledTree | src/lib.rs:66 | a run over settled directories succeeds and changes nothing |
| Walk.SettledIsAggregated | src/lib.rs:48-53 | a settled directory holds the extreme time of its entries with readable metadata, or it has no such entry |
| Walk.WalkAggregatesEveryReachableDirectory | src/lib.rs:63-69 | after a successful walk every directory reachable from the root is settled and holds the extreme time of its entries as they are at the end, fixed subdirectories included |
| Walk.WalkFixesSubtreeBeforeDirectory | src/lib.rs:64-68 | in a successful walk, when the walk reaches a directory, every node strictly below it already has its final state |
| Walk.FixAllLeavesDoneDescendants | src/lib.rs:66-67 | in a run where no path precedes one of its descendants, successful or not, the nodes below `paths[i]` are final before `paths[i]` is fixed |
| Walk.FixAllUntouched | src/lib.rs:66-67 | in a run over `a + b`, successful or not, a node not among the paths of `b` keeps the state it had after `a` |
| Walk.WalkIsIdempotent | src/lib.rs:63-69 | a walk after a successful walk succeeds and changes nothing |
| Walk.WalkDiscoveryErrorWritesNothing | src/lib.rs:64 | when discovery fails, the root included, the walk returns that error and writes no modification time |

## Left out

- `src/main.rs`: the command-line interface, with its argument parsing, prompt, path checks and exit codes. It holds no algorithmic content.
- `is_elevated` (src/lib.rs:22-25), `src/windows.rs` and the unix `util` module: platform privilege queries made through foreign calls.
- Symbolic links: `is_dir` follows links, so a link to a directory is walked as a directory, and a cyclic link would make discovery run forever. A path here is a sequence of names, so every modelled tree is finite and acyclic. A node reached through a link appears as its own node, and the aliasing of two paths to one directory is not represented.
- Concurrent changes to the tree by other processes during a run.
- `DirEntry::metadata` and `Path::is_dir` are not separate calls that can fail independently. Both read the node's `metadataReadable` flag. Without links, the two can only disagree under concurrent changes, which are left out too.
- Timestamps: `FileTime` (seconds plus nanoseconds) is an unbounded integer. Only its total order matters to the core.
- Errors: `IoError` attaches the path it concerns, which the real error value does not carry. The many other `io::ErrorKind`s are collapsed onto `NotFound`, `NotADirectory` and `PermissionDenied`.
- Discovery.GetSubdirs: the in-place `output.reverse()` is modelled as building the reversed sequence.
- Discovery.DiscoverOnceEachDescendantsFirst: requires `WellFormed`: the names in each listing are distinct, as in any real directory. The same holds for the other lemmas that need it.
- Walk.FixAll and Walk.WalkRun: their own contracts state only that the set of paths is kept. What they compute is stated by the lemmas about them listed above.
- The test `set_date_recursively` (tests/modified-time-fix.rs:80-91) asserts only success, and no member models it.
