# treediff — a verified Dafny model

treediff compares two directory trees. It walks them side by side and prints one line
per path that was added (`A`), deleted (`D`) or modified (`M`) between the first tree
and the second. It decides most cases from `lstat` metadata alone: mode, owner, group,
special device and size, but never the timestamps. Two non-directories (regular files,
symlinks or special files) whose metadata agree get their contents compared through
`mmap`, or their link targets when they cannot be mapped. A name that both trees list with the same inode on the same device
is skipped.

The model follows the Go package `diff` file by file:

- `changes.dfy` (module `ChangeRecords`): `diff/changes.go`: the `Change` record, the kinds 0/1/2, `String`, and `reportChange` as the `Output` class whose text is appended to.
- `content_compare.dfy` (module `ContentCompare`): `diff/mmap-compare.go`: the result table as a function, and `mmapCompare` as a method with its `goto` and deferred releases.
- `walker.dfy` (module `Walker`): `diff/walker.go`: `statDifferent`, the merge of two sorted listings, the classification and the child scheduling. These come as pure step functions and as the imperative `Walker` class.
- `diff.dfy` (module `Treediff`): `diff/diff.go`: root normalisation, `kickOffWalker`, the worker loop bodies, the request counter and the returned error.
- `symmetry.dfy`, `uniqueness.dfy`, `scenarios.dfy`: swapping the two trees, each path reported at most once, and small end-to-end comparisons.
- `fs.dfy`, `order.dfy`, `base.dfy`: the abstract filesystem, `bytes.Compare` / `strings.Compare`, `Option` and `byte`.

**Filesystem.** Each tree is a finite map from a path *relative to its root* to what
`lstat`, `readdirnames`, `open`, `mmap` and `readlink` report for that path. The root
itself has the key `""`. A missing key is `ENOENT`. A tree is valid (`Fs.ValidFs`) when:
every listed name is non-empty and neither `.` nor `..`; every lstat record is one the
kernel can fill, a 32-bit `st_mode` whose `S_IFMT` type bits are `S_IFDIR` exactly for a
directory and `S_IFLNK` exactly for a symlink; and a root that lstat finds is a
directory. The root is looked up as `dir + "/"`, and lstat of a non-directory under a
trailing slash fails with `ENOTDIR`; such a root is an `Unstatable` entry.

**Concurrency.** The eight walk workers, the eight compare workers, the channels and the
`WaitGroup` become one sequential FIFO worklist of walk and compare requests. The
`requests` counter is a field of the `Walker` class. `Add(1)` and `Done()` are its own
methods. Between worker turns it equals the number of pending requests, so the driver
loop that serves requests until the counter is zero ends with an empty worklist.

**Specification functions.** `WalkStep` is everything one `walk` call does: the changes
it reports, the requests it queues and the error it returns. `Run` is the worker loops
over a worklist. `Diff` is the whole comparison. Each imperative method is proved equal
to the function for its part. `Run` terminates by a potential argument over the longest
path and the largest listing of the two trees.

## Model

| member | source | states |
|---|---|---|
| ChangeRecords.String | diff/changes.go:29-40 | a valid kind formats as its letter `M`/`A`/`D`, a tab, then the path; any other kind as a tab and the path |
| ChangeRecords.ParseString | diff/changes.go:29-40 | for the three kinds the formatted line reads back to the same change, so the line determines kind and path |
| ChangeRecords.StringInjective | diff/changes.go:30-39 | two changes of valid kinds with the same line are the same change |
| ChangeRecords.ParseInvalidKind | diff/changes.go:31-39 | a kind outside 0..2 gives a line with no letter, which never reads back as a change |
| ChangeRecords.RenderAppend | diff/changes.go:24-27 | printing two logs one after the other gives the lines of their concatenation |
| ChangeRecords.Output.ReportChange | diff/changes.go:24-27 | one call appends exactly `String(Change{k, path}) + "\n"` to standard output and one change to the log |
| Order.BytesCompare | diff/mmap-compare.go:56 | `bytes.Compare`: the result is -1, 0 or 1, and 0 exactly for equal sequences |
| Order.StrCompare | diff/walker.go:91 | the same three-way order on names and link targets |
| Order.StrCompareAntisymmetric | diff/walker.go:91-106 | swapping the operands negates the comparison |
| Order.StrLessTransitive | diff/walker.go:73-75 | the order on names is transitive |
| Fs.Lstat | diff/walker.go:123-129 | lstat finds exactly the entries of the tree; a missing path fails with ENOENT |
| Fs.Readdirnames | diff/walker.go:58-71 | a listing succeeds exactly for an existing entry with a readable listing, and then gives exactly that entry's names and inodes |
| Fs.JoinPrefix | diff/walker.go:120 | a child path is the parent path, `/`, then the name, or the name itself at the root |
| ContentCompare.CompareResult | diff/mmap-compare.go:19-98 | what `mmapCompare` returns: 0 for size zero, `bytes.Compare` of both maps, else the symlink fallback (-1 unreadable target or no link, 1 exactly one link, `strings.Compare` of two targets) |
| ContentCompare.MmapCompare | diff/mmap-compare.go:19-98 | the method returns the result table's value, and its trace acquires the files and maps it opened, in order, then releases them most recent first |
| ContentCompare.RunDeferred | diff/mmap-compare.go:35-54 | the deferred calls run last deferred, first run |
| ContentCompare.ResultTable | diff/mmap-compare.go:19-98 | the result is -1, 0 or 1, and 0 exactly for zero size, equal mapped bytes, or two symlinks with equal readable targets |
| ContentCompare.FallbackRows | diff/mmap-compare.go:75-97 | after a failure: an unreadable target gives -1, two non-links give -1, exactly one link gives 1 |
| ContentCompare.ZeroSizeNoIo | diff/mmap-compare.go:27-29 | size zero returns 0 and opens or maps nothing |
| ContentCompare.MappedIgnoresLinks | diff/mmap-compare.go:30-56 | once both files open and map, only the bytes decide; symlink bits and targets do not matter |
| ContentCompare.CompareSymmetric | diff/mmap-compare.go:19-98 | whether two files count as equal does not depend on their order |
| ContentCompare.BracketBalanced | diff/mmap-compare.go:35-54 | every acquired file or map is released exactly as often as acquired; at no point of the trace is a resource released more often than acquired, and none is held at the end |
| ContentCompare.AcquiredWellOrdered | diff/mmap-compare.go:30-54 | the held resources are distinct, a map is held only over both open files, and all four are held exactly when both maps succeed |
| Walker.StatDifferent | diff/walker.go:150-153 | two records differ when mode, uid, gid, rdev or size differ; nothing else is looked at |
| Walker.StatDifferentIgnoresOtherFields | diff/walker.go:150-153 | `statDifferent` depends only on mode, uid, gid, rdev and size, and is symmetric in its two records |
| Walker.MergedNames | diff/walker.go:76-115 | the two-pointer merge of two listings by `strings.Compare`: smaller head first, a shared name once unless same inode and same device, then the leftovers of either side; at most `len(names1)+len(names2)` names |
| Walker.MergedFromListings | diff/walker.go:76-115 | every merged name comes from one of the two listings |
| Walker.AdvanceFirst | diff/walker.go:92-95 | a smaller head on side one is appended and side one advances |
| Walker.AdvanceBoth | diff/walker.go:96-101 | equal heads advance both sides and are appended unless they are the same inode on the same device |
| Walker.AdvanceSecond | diff/walker.go:102-105 | a smaller head on side two is appended and side two advances |
| Walker.TwoPointerPass | diff/walker.go:76-107 | the loop ends with one listing used up, and what it built followed by the merge of the rest is the whole merge |
| Walker.AppendRest | diff/walker.go:108-115 | the drain loops append the remaining names in order |
| Walker.MergeNames | diff/walker.go:76-115 | the merge method computes the merge; its result has at most `len(names1)+len(names2)` names, and is strictly increasing when both listings are |
| Walker.MergedStrictlyIncreasing | diff/walker.go:76-115 | strictly increasing listings merge into a strictly increasing sequence, so no name repeats |
| Walker.MergedKeepsOneSided | diff/walker.go:92-115 | a name in exactly one listing is always merged, including names left over once the other listing runs out |
| Walker.MergedShared | diff/walker.go:96-101 | a name in both listings is dropped exactly when the inodes are equal and `sameDevice` holds |
| Walker.MergedWithEmpty | diff/walker.go:108-115 | merging with an empty listing yields the other listing's names |
| Walker.MergedSymmetric | diff/walker.go:91-106 | the merge does not depend on which listing comes first |
| Walker.ChildStat | diff/walker.go:121-133 | a child's stat is present exactly when its side is a directory and lstat finds it, and it is that entry's record |
| Walker.ChildTasks | diff/walker.go:119-146 | one walk request per merged name, in order, with the joined path, up to the first failing lstat; all names are covered when nothing fails |
| Walker.ChildTasksNoError | diff/walker.go:119-133 | scheduling returns no error exactly when no child's lstat fails for a reason other than non-existence |
| Walker.ChildTasksFirstError | diff/walker.go:122-133 | a failure is that of the first child whose lstat fails otherwise, side one before side two, after the requests of the children before it |
| Walker.ChildTasksStopped | diff/walker.go:124-132 | once a child has failed, later names change nothing |
| Walker.ChildTasksAllOk | diff/walker.go:119-146 | children that all lstat cleanly give exactly the given requests and no error |
| Walker.ChildTasksFailsAt | diff/walker.go:119-133 | the first failing child ends scheduling with its error after the requests before it |
| Walker.ChildStepOk | diff/walker.go:138-145 | a child that lstats cleanly adds one walk request |
| Walker.ChildStepFails | diff/walker.go:124-131 | a child whose lstat fails otherwise adds no request and sets the error |
| Walker.Classify | diff/walker.go:34-51 | the head of `walk`: file on side one only is Delete, on side two only is Add, two files with different metadata Modify, two with equal metadata one comparison request, anything else nothing |
| Walker.WalkStep | diff/walker.go:21-148 | one `walk` call: the classification, then for a directory on either side the listings (first failure returned) and the child requests of the merged names up to the first failing lstat |
| Walker.WalkOneSidedFile | diff/walker.go:34-40 | a non-directory on side one with none on side two reports Delete, and the mirror case Add; no comparison is queued |
| Walker.WalkFileAgainstDir | diff/walker.go:34-71 | a file against a directory reports Delete and then walks every entry of the directory against nothing |
| Walker.WalkBothFiles | diff/walker.go:41-51 | two files with different metadata: one Modify and nothing queued; otherwise nothing reported and exactly one comparison `(path, dir1+path, dir2+path, size1)` queued |
| Walker.WalkSymlinkAgainstFile | diff/walker.go:41-46 | a symlink against a non-link with kernel-filled modes: the file types differ, so the modes differ and the path is Modify with nothing queued |
| Walker.WalkLeaf | diff/walker.go:53-56 | without a directory nothing is listed, no child is walked, no error arises, and at most one comparison is queued |
| Walker.WalkReaddirError | diff/walker.go:58-71 | a failing readdirnames, side one first, ends the walk with its error and no child requests |
| Walker.DirWalkTasks | diff/walker.go:53-146 | a pair with a directory queues no comparison, only the child walk requests |
| Walker.WalkChildren | diff/walker.go:117-146 | listed directories give one walk request per merged name for the joined path with each side's lstat record, all of them exactly when no lstat fails otherwise |
| Walker.WalkStepWellFormed | diff/walker.go:49 | every request a walk queues carries its path's own lstat records, and a comparison names `dir1+path` and `dir2+path` of entries present on both sides |
| Walker.LstatChild | diff/walker.go:122-133 | the lstat of one child on one side: skipped when not a directory, non-existence read as absence, any other failure returned |
| Walker.Walker.constructor | diff/diff.go:40-46 | a fresh walker over the two trees and root prefixes, with no error and no pending request |
| Walker.Walker.Enqueue | diff/walker.go:138-145 | `requests.Add(1)` and the send: the request joins the end of the worklist and the counter goes up by one |
| Walker.Walker.Receive | diff/diff.go:66 | a worker takes the oldest pending request |
| Walker.Walker.Done | diff/diff.go:70 | `requests.Done()` lowers the counter by one |
| Walker.Walker.ReportOrCompare | diff/walker.go:34-51 | the classification prints Delete, Add or Modify, or queues the one content comparison, exactly as the classification table gives, and counts the queued request |
| Walker.Walker.ListDirs | diff/walker.go:58-71 | the two listings are fetched side one first, each only for a directory, and the first failure is returned |
| Walker.Walker.ScheduleChildren | diff/walker.go:119-146 | the loop over the merged names queues exactly the child requests and returns exactly the error that `ChildTasks` gives, and keeps the worklist well formed |
| Walker.Walker.Walk | diff/walker.go:21-148 | one `walk` call reports, queues and returns exactly what `WalkStep` gives, and leaves the recorded error alone |
| Treediff.NormalizeRoot | diff/diff.go:34-39 | a normalised root ends in `/`; a root already ending in `/` is unchanged, any other gets `/` appended |
| Treediff.NormalizeRootIdempotent | diff/diff.go:34-39 | normalising twice is normalising once |
| Treediff.CompareRequestStatsOk | diff/walker.go:49 | a queued comparison never reaches the comparator's fallback with a failed lstat |
| Treediff.CompareReport | diff/diff.go:81-86 | a comparison reports one Modify of its path exactly when `mmapCompare` is nonzero, and nothing otherwise |
| Treediff.WalkStepDecreases | diff/diff.go:96-100 | everything one walk queues is worth less than the walk request itself, so the counter reaches zero |
| Treediff.Run | diff/diff.go:60-100 | the worker loops over one FIFO worklist until it is empty: a walk request reports, queues and records its error, a comparison reports Modify when nonzero; terminates by the potential of the worklist |
| Treediff.RunWalkStep | diff/diff.go:66-71 | a served walk request appends its changes, queues its requests behind the rest, and replaces the recorded error only by an error |
| Treediff.RunCompareStep | diff/diff.go:81-86 | a served comparison appends its report and changes nothing else |
| Treediff.RunKeepsError | diff/diff.go:67-69 | an error once recorded is never cleared by a later request |
| Treediff.RunExtends | diff/diff.go:60-88 | output is only appended to: what was printed stays a prefix |
| Treediff.RootLstatFails | diff/diff.go:105-113 | a root whose lstat fails ends the comparison with that error, the first root tried first, before anything is printed |
| Treediff.MissingRootIsError | diff/diff.go:105-109 | a missing first root is an ENOENT error, not a deletion |
| Treediff.KickOffErrorReturned | diff/diff.go:92-94 | a failing root walk returns at once with its own output and error; in every case its output comes first |
| Treediff.KickOff | diff/diff.go:105-118 | `kickOffWalker`: lstat of the first root, then of the second, each failure returned at once, then the walk of the root pair under `""` |
| Treediff.KickOffWalker | diff/diff.go:105-118 | both roots are lstat'ed, side one first. A failure is returned with nothing queued or printed. Otherwise the root pair is walked under the path `""` |
| Treediff.ServeWalk | diff/diff.go:66-71 | a walk worker serving one request: the log gains exactly the walk's changes, the worklist gains its requests at the end, the error is replaced only by the walk's error, the remaining run's outcome is unchanged and the worklist loses potential |
| Treediff.ServeCompare | diff/diff.go:81-86 | a compare worker serving one request: the log gains exactly the comparison's report (Modify exactly when `mmapCompare` is nonzero), the worklist, counter and error are unchanged, and the remaining run's outcome is unchanged |
| Treediff.Serve | diff/diff.go:60-88 | a worker turn (receive, serve, `Done`) keeps the counter equal to the pending requests, leaves the outcome of the rest of the run unchanged, and lowers the worklist's potential |
| Treediff.Drain | diff/diff.go:96-100 | the loop ends exactly when no request is pending, with the output and error `Run` predicts |
| Treediff.KickOffAndDrain | diff/diff.go:92-102 | the kick-off's error, or after the drain the last recorded walk error, together with the printed changes, is exactly `Diff` |
| Treediff.Diff | diff/diff.go:33-103 | the whole comparison: roots normalised, the kick-off returning at once on error, otherwise the run of everything it queued with the last walk error |
| Treediff.Changes | diff/diff.go:33-103 | the returned slice is empty, the returned error is `Diff`'s error, and standard output is `Diff`'s changes, one line each |
| Symmetry.ClassifySymmetric | diff/walker.go:34-51 | with the sides swapped, Delete and Add trade places and the comparison is queued with the paths swapped and the same size |
| Symmetry.ListBothSymmetric | diff/walker.go:58-71 | swapped listing fails exactly when listing failed, and otherwise gives the listings swapped |
| Symmetry.ChildStepSymmetric | diff/walker.go:119-146 | one child after swapped predecessors gives the swapped request and the same error presence |
| Symmetry.ChildTasksSymmetric | diff/walker.go:119-146 | swapped scheduling sends the swapped requests and fails exactly when it failed |
| Symmetry.WalkStepSymmetric | diff/walker.go:21-148 | a swapped walk reports the mirrored changes, queues the swapped requests in the same order, and fails exactly when the walk failed |
| Symmetry.CompareReportSymmetric | diff/diff.go:81-86 | a swapped comparison reports the same Modify, or nothing |
| Symmetry.RunSymmetric | diff/diff.go:60-100 | the swapped run prints the mirrored changes in the same order and ends in an error exactly when the run did |
| Symmetry.DiffSymmetric | diff/diff.go:33-103 | comparing B with A prints A-to-B's changes in the same order with Add and Delete swapped, and fails exactly when A-to-B fails |
| Uniqueness.WalkStepShape | diff/walker.go:34-146 | a walk reports at most one change, at its own path, and queues either one comparison at its own path (reporting nothing) or walks of distinct children of it |
| Uniqueness.StepSpread | diff/diff.go:60-88 | serving a request keeps the reported paths distinct and the pending paths disjoint subtrees holding none of them |
| Uniqueness.RunReportsDistinct | diff/diff.go:60-100 | from such a state the run reports every path at most once |
| Uniqueness.DiffReportsEachPathOnce | diff/diff.go:33-103 | for listings in name order without separators in names, no two changes printed share a path |
| Uniqueness.WalkStepPathsNonEmpty | diff/walker.go:21-148 | a walk below the root, or of the two root directories, reports and queues only non-empty paths |
| Uniqueness.RunPathsNonEmpty | diff/diff.go:60-100 | from non-empty pending and reported paths the run reports only non-empty paths |
| Uniqueness.DiffNeverReportsRoot | diff/diff.go:33-118 | the root path `""` is never printed: the roots lstat as directories, so the root walk reports nothing |
| Scenarios.OnlyInFirst | diff/walker.go:37-38 | `{x: "hello"}` against `{}` prints exactly `D x` with no error |
| Scenarios.OnlyInSecond | diff/walker.go:39-40 | `{}` against `{x: "hello"}` prints exactly `A x` with no error |
| Scenarios.SameContents | diff/walker.go:47-50 | equal bytes and metadata with different inode and timestamps print nothing |
| Scenarios.OtherContents | diff/diff.go:82-84 | equal metadata but other bytes of the same length print exactly `M x` |
| Scenarios.LinkAgainstFile | diff/walker.go:41-46 | a symlink to `hello` against a regular file holding `hello` prints exactly `M x`, and the walk of `x` is that one Modify with no comparison queued |
| Scenarios.HardLinkSkipped | diff/walker.go:96-101 | the same inode on the same device on both sides is neither walked nor compared, even with different stored bytes |
| Scenarios.NestedModify | diff/walker.go:21-148 | `d/x` of differing size prints exactly `M d/x`, and nothing for the directory `d` |

`SameDevice` is true only when both stat records are present and their `Dev` fields
are equal (diff/walker.go:25-32). The model states this by definition.
`WalkStep` passes it to the merge as `sameDevice`, which `Walker.MergedShared` and
`Walker.AdvanceBoth` take as an abstract flag.

Three behaviours of the code are easy to miss, and the model follows them:

- **Root walk error.** When the root walk returns an error, `Changes` returns it at once
  (diff/diff.go:92-94). It does not drain the requests already queued, so
  `Treediff.Diff` reports only the root walk's changes in that case.
- **Symlinks.** Two symlinks with different targets are not always Modify. `open`
  follows links, so when both open and map, the bytes of the files they point to are
  compared (`ContentCompare.MappedIgnoresLinks`). Only the first `size` bytes are mapped,
  and `size` is the link's own lstat size, i.e. the length of its target name. The model
  takes the mapped bytes of each path as given. The targets decide only once an open or
  a map has failed.
- **Returned slice.** Nothing is sent on the changes channel, so the slice `Changes`
  returns is always empty. The changes reach standard output through `reportChange`.
  The model returns `[]` and the printed text.

## Left out

- Concurrency is left out: goroutines, channel buffer sizes (32, 4096, 16), the worker counts of 8, and the `workers` WaitGroup. One sequential FIFO worklist stands for both request channels. The output order is therefore the order of one particular schedule; the Go program's lines may come in any interleaving.
- The `select`/`default` fallback that spawns a goroutine to send a walk request (diff/walker.go:139-145) is left out. Such a send is modelled as a direct enqueue.
- The unsynchronised write to `w.err` (diff/diff.go:68) is modelled as a plain assignment, so the last error recorded wins.
- After a root walk error, the Go workers go on serving queued requests in the background and may still print. The model stops at the return.
- `mmap`/`unmap` internals (diff/mmap-compare.go:100-109) are left out. They are abstract acquire and release events, and a successful map yields the file's bytes.
- Stderr diagnostics (diff/mmap-compare.go:62, 68, 80, 86, 93) are output only and are left out.
- The panic on a failed `lstat` in the `maybeSymlink` branch (diff/mmap-compare.go:60-73) is not modelled. `ContentCompare.MmapCompare` requires both lstat results there. `Treediff.CompareRequestStatsOk` proves that every comparison the walker queues meets this requirement.
- `filepath.Join` cleaning rules are left out. Join is the name at the root and `path + "/" + name` below it, since listing names contain no separator.
- Absolute paths are left out: each tree is addressed by relative path. The root lstat of `dir + "/"`, which follows a symlink to a directory, is the entry `""`. Errors carry the failing call, the side, the relative path and the errno, not Go's formatted message.
- `readdirnames` is not among the files modelled. Its listings are taken as given, and sortedness is an assumption, as the comment at diff/walker.go:73-74 states. It is a hypothesis of the ordering and uniqueness lemmas only.
- Diff and the imperative `Changes` require valid trees (`Fs.ValidFs`). getdents(2) returns no empty name, and `Readdirnames` drops `.` and `..`; with an empty name, `filepath.Join(p, "")` is `p` and the walk would revisit the same directory without end. The kernel-filled stat records are what lstat(2) returns, and a root found by lstat of `dir + "/"` is a directory.
- Uniqueness.DiffReportsEachPathOnce: also requires sorted listings and names without `/` (`Uniqueness.WellListed`). Both hold for real `readdirnames` results, but the modelled listings are taken as given.
- Names are compared as Dafny strings, character by character. For valid UTF-8 this is the byte order of `bytes.Compare`. Invalid UTF-8 names are not modelled.
- `int64` sizes and `uint32`/`uint64` stat fields are unbounded integers. Nothing in the core does arithmetic on them.
- main.go (argument checks, `GOMAXPROCS`, exit codes) and integration_test.go (a shell script that is not part of this model) are left out.
- Walker.ChildStat: states the record a child is walked with only for lstat outcomes other than a hard failure. A hard failure never produces a walk request.
- ContentCompare.MmapCompare: assumes the filesystem does not change between the walk and the comparison. Races with concurrent writers are not modelled.
