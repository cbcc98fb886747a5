/** The traversal driver: root normalisation, the kick-off walk of the two roots and the
    worker loops, run here as one sequential loop over a single worklist of walk and
    content-comparison requests. The request counter equals the number of pending
    requests, and the run ends exactly when no request is left. */
module Treediff {
  import opened Base
  import opened Fs
  import opened FsErrors
  import opened ChangeRecords
  import opened ContentCompare
  import opened Walker

  // ---------------------------------------------------------------------------
  // Roots

  predicate HasSlashSuffix(dir: string) {
    |dir| > 0 && dir[|dir| - 1] == '/'
  }

  /** The root prefix: a trailing '/' is appended unless there already is one. */
  function NormalizeRoot(dir: string): (r: string)
    ensures HasSlashSuffix(r)
    ensures HasSlashSuffix(dir) ==> r == dir
    ensures !HasSlashSuffix(dir) ==> r == dir + "/"
  {
    if HasSlashSuffix(dir) then dir else dir + "/"
  }

  /** Normalising twice is normalising once. */
  lemma NormalizeRootIdempotent(dir: string)
    ensures NormalizeRoot(NormalizeRoot(dir)) == NormalizeRoot(dir)
  {
  }

  // ---------------------------------------------------------------------------
  // The content comparison of one request

  /** What the comparator observes for a path of a tree: the open, map and readlink
      outcomes, and the lstat symlink bit. */
  function ProbeOf(fs: FS, path: string): (o: Probe)
    ensures path in fs && fs[path].Entry? ==> o.isSymlink == Some(fs[path].stat.isSymlink)
  {
    if path in fs && fs[path].Entry? then
      var n := fs[path];
      Probe(n.content.openOk, n.content.mapped, Some(n.stat.isSymlink), n.content.target)
    else Probe(false, None, None, None)
  }

  /** A well-formed comparison request names a path that lstat finds in both trees, so
      the comparator's fallback never dereferences a failed lstat. */
  lemma CompareRequestStatsOk(tr: Trees, t: Task)
    requires t.CompareTask? && WellFormedTask(tr, t)
    ensures FallbackStatsOk(ProbeOf(tr.fs1, t.path), ProbeOf(tr.fs2, t.path), t.size)
  {
  }

  /** The changes a comparison request reports: Modify exactly when mmapCompare returns a
      nonzero result. */
  function CompareReport(tr: Trees, t: Task): (r: seq<Change>)
    requires t.CompareTask? && WellFormedTask(tr, t)
    ensures r == [] || r == [Change(ChangeModify, t.path)]
    ensures r == [] <==> CompareResult(ProbeOf(tr.fs1, t.path), ProbeOf(tr.fs2, t.path), t.size) == 0
  {
    CompareRequestStatsOk(tr, t);
    if CompareResult(ProbeOf(tr.fs1, t.path), ProbeOf(tr.fs2, t.path), t.size) != 0 then [Change(ChangeModify, t.path)]
    else []
  }

  // ---------------------------------------------------------------------------
  // Termination: every request is worth less than the one that queued it

  ghost predicate ValidTrees(tr: Trees) {
    ValidFs(tr.fs1) && ValidFs(tr.fs2)
  }

  ghost predicate KeysBounded(fs: FS, b: nat) {
    forall p :: p in fs ==> |p| <= b
  }

  ghost predicate FanoutBounded(fs: FS, m: nat) {
    forall p :: p in fs && fs[p].Entry? && fs[p].listing.Names? ==> |fs[p].listing.entries| <= m
  }

  /** b bounds the length of every path and m the number of entries of every listing. */
  ghost predicate Bounded(tr: Trees, b: nat, m: nat) {
    KeysBounded(tr.fs1, b) && KeysBounded(tr.fs2, b) && FanoutBounded(tr.fs1, m) && FanoutBounded(tr.fs2, m)
  }

  function Fanout(n: Node): nat {
    if n.Entry? && n.listing.Names? then |n.listing.entries| else 0
  }

  /** A finite tree has a longest path and a largest listing. */
  lemma {:induction false} TreeBounds(fs: FS) returns (b: nat, m: nat)
    ensures KeysBounded(fs, b) && FanoutBounded(fs, m)
    decreases |fs.Keys|
  {
    if fs.Keys == {} {
      return 0, 0;
    }
    var k :| k in fs.Keys;
    var rest := fs - {k};
    assert rest.Keys == fs.Keys - {k};
    var b', m' := TreeBounds(rest);
    b := if |k| > b' then |k| else b';
    m := if Fanout(fs[k]) > m' then Fanout(fs[k]) else m';
    forall p | p in fs && fs[p].Entry? && fs[p].listing.Names?
      ensures |fs[p].listing.entries| <= m
    {
      if p != k {
        assert p in rest;
      }
    }
  }

  lemma BoundsExist(tr: Trees)
    ensures exists b: nat, m: nat :: Bounded(tr, b, m)
  {
    var b1, m1 := TreeBounds(tr.fs1);
    var b2, m2 := TreeBounds(tr.fs2);
    var b := if b1 > b2 then b1 else b2;
    var m := if m1 > m2 then m1 else m2;
    assert Bounded(tr, b, m);
  }

  /** Bounds of the two trees, fixed once per pair of trees. */
  ghost function Bounds(tr: Trees): (bm: (nat, nat))
    ensures Bounded(tr, bm.0, bm.1)
  {
    BoundsExist(tr);
    var b: nat, m: nat :| Bounded(tr, b, m);
    (b, m)
  }

  /** What a walk request at depth d may still cost: beyond the longest path nothing,
      otherwise one comparison or up to 2m child walks one level deeper. */
  function Cap(b: nat, m: nat, d: nat): (r: nat)
    ensures r >= 1
    decreases if d <= b then b + 1 - d else 0
  {
    if d > b then 1 else 2 + 2 * m * Cap(b, m, d + 1)
  }

  function TaskPotential(b: nat, m: nat, t: Task): nat {
    match t
    case WalkTask(p, _, _) => Cap(b, m, |p|)
    case CompareTask(_, _, _, _) => 1
  }

  function Potential(b: nat, m: nat, q: seq<Task>): nat {
    if q == [] then 0 else TaskPotential(b, m, q[0]) + Potential(b, m, q[1..])
  }

  lemma {:induction false} PotentialAppend(b: nat, m: nat, q1: seq<Task>, q2: seq<Task>)
    ensures Potential(b, m, q1 + q2) == Potential(b, m, q1) + Potential(b, m, q2)
    decreases |q1|
  {
    if q1 == [] {
      assert q1 + q2 == q2;
    } else {
      assert (q1 + q2)[1..] == q1[1..] + q2;
      PotentialAppend(b, m, q1[1..], q2);
    }
  }

  lemma {:induction false} CapAntitone(b: nat, m: nat, d: nat, e: nat)
    requires d <= e
    ensures Cap(b, m, e) <= Cap(b, m, d)
    decreases e - d
  {
    if d < e {
      CapAntitone(b, m, d + 1, e);
      if d <= b {
        assert Cap(b, m, d) == 2 + 2 * m * Cap(b, m, d + 1);
        MulGrows(2 * m, Cap(b, m, d + 1));
      }
    }
  }

  lemma MulGrows(x: nat, y: nat)
    ensures y <= 2 + x * y || x == 0
  {
  }

  lemma MulMono(x: nat, y: nat, z: nat)
    requires x <= y
    ensures x * z <= y * z
  {
  }

  /** Walk requests at least one level below depth d are together worth no more than
      their number times the cap one level down. */
  lemma {:induction false} ChildrenPotential(b: nat, m: nat, ts: seq<Task>, d: nat)
    requires forall k :: 0 <= k < |ts| ==> ts[k].WalkTask? && |ts[k].path| >= d + 1
    ensures Potential(b, m, ts) <= |ts| * Cap(b, m, d + 1)
  {
    if ts != [] {
      ChildrenPotential(b, m, ts[1..], d);
      CapAntitone(b, m, d + 1, |ts[0].path|);
      assert |ts| * Cap(b, m, d + 1) == Cap(b, m, d + 1) + (|ts| - 1) * Cap(b, m, d + 1);
    }
  }

  /** A name a listing of a valid tree reports is never empty. */
  lemma ListedNamesNonEmpty(tr: Trees, path: string, is1Dir: bool, is2Dir: bool, sameDevice: bool)
    requires ValidTrees(tr) && ListBoth(tr, path, is1Dir, is2Dir).Listed?
    ensures var l := ListBoth(tr, path, is1Dir, is2Dir);
      forall k :: 0 <= k < |MergedNames(l.names1, l.names2, sameDevice)| ==> MergedNames(l.names1, l.names2, sameDevice)[k] != ""
  {
    var l := ListBoth(tr, path, is1Dir, is2Dir);
    var names := MergedNames(l.names1, l.names2, sameDevice);
    MergedFromListings(l.names1, l.names2, sameDevice);
    forall k | 0 <= k < |names|
      ensures names[k] != ""
    {
      assert names[k] in names;
      if names[k] in NamesOf(l.names1) {
        var j :| 0 <= j < |l.names1| && NamesOf(l.names1)[j] == names[k];
      } else {
        var j :| 0 <= j < |l.names2| && NamesOf(l.names2)[j] == names[k];
      }
    }
  }

  /** A pair with no directory queues at most one comparison, and only for paths that
      exist, so within the longest path. */
  lemma LeafStepDecreases(tr: Trees, b: nat, m: nat, path: string, i1: Option<Stat>, i2: Option<Stat>)
    requires Bounded(tr, b, m) && WellFormedTask(tr, WalkTask(path, i1, i2))
    requires !IsDir(i1) && !IsDir(i2)
    ensures Potential(b, m, WalkStep(tr, path, i1, i2).tasks) < Cap(b, m, |path|)
  {
    var s := WalkStep(tr, path, i1, i2);
    WalkLeaf(tr, path, i1, i2);
    if s.tasks != [] {
      assert path in tr.fs1;
      assert s.tasks[1..] == [];
      assert Potential(b, m, s.tasks) == 1;
    }
  }

  /** The child walks of at most 2m non-empty names are worth at most 2m times the cap
      one level down. */
  lemma ChildTasksPotential(tr: Trees, b: nat, m: nat, path: string, names: seq<string>, is1Dir: bool, is2Dir: bool)
    requires |names| <= 2 * m
    requires forall k :: 0 <= k < |names| ==> names[k] != ""
    ensures Potential(b, m, ChildTasks(tr, path, names, is1Dir, is2Dir).tasks) <= 2 * m * Cap(b, m, |path| + 1)
  {
    var sp := ChildTasks(tr, path, names, is1Dir, is2Dir);
    forall k | 0 <= k < |sp.tasks|
      ensures sp.tasks[k].WalkTask? && |sp.tasks[k].path| >= |path| + 1
    {
      assert sp.tasks[k] == ChildWalk(tr, path, names[k], is1Dir, is2Dir);
    }
    ChildrenPotential(b, m, sp.tasks, |path|);
    MulMono(|sp.tasks|, 2 * m, Cap(b, m, |path| + 1));
  }

  /** The merge of two listings of a bounded tree has at most 2m names. */
  lemma ListedFanout(tr: Trees, m: nat, path: string, is1Dir: bool, is2Dir: bool, sameDevice: bool)
    requires FanoutBounded(tr.fs1, m) && FanoutBounded(tr.fs2, m) && ListBoth(tr, path, is1Dir, is2Dir).Listed?
    ensures var l := ListBoth(tr, path, is1Dir, is2Dir);
      |MergedNames(l.names1, l.names2, sameDevice)| <= 2 * m
  {
    var l := ListBoth(tr, path, is1Dir, is2Dir);
    assert |l.names1| <= m && |l.names2| <= m;
  }

  /** A directory pair queues at most 2m child walks, each one level deeper. */
  lemma DirStepDecreases(tr: Trees, b: nat, m: nat, path: string, i1: Option<Stat>, i2: Option<Stat>)
    requires ValidTrees(tr) && Bounded(tr, b, m) && WellFormedTask(tr, WalkTask(path, i1, i2))
    requires IsDir(i1) || IsDir(i2)
    ensures Potential(b, m, WalkStep(tr, path, i1, i2).tasks) < Cap(b, m, |path|)
  {
    var is1Dir, is2Dir := IsDir(i1), IsDir(i2);
    assert |path| <= b;
    DirWalkTasks(tr, path, i1, i2);
    var l := ListBoth(tr, path, is1Dir, is2Dir);
    if l.Listed? {
      var sd := SameDevice(i1, i2);
      ListedFanout(tr, m, path, is1Dir, is2Dir, sd);
      ListedNamesNonEmpty(tr, path, is1Dir, is2Dir, sd);
      ChildTasksPotential(tr, b, m, path, MergedNames(l.names1, l.names2, sd), is1Dir, is2Dir);
    }
  }

  /** Everything one walk queues is worth less than the walk request itself. */
  lemma WalkStepDecreases(tr: Trees, b: nat, m: nat, path: string, i1: Option<Stat>, i2: Option<Stat>)
    requires ValidTrees(tr) && Bounded(tr, b, m) && WellFormedTask(tr, WalkTask(path, i1, i2))
    ensures Potential(b, m, WalkStep(tr, path, i1, i2).tasks) < Cap(b, m, |path|)
  {
    if IsDir(i1) || IsDir(i2) {
      DirStepDecreases(tr, b, m, path, i1, i2);
    } else {
      LeafStepDecreases(tr, b, m, path, i1, i2);
    }
  }

  // ---------------------------------------------------------------------------
  // The run

  /** What a run leaves behind: the changes reported, in order, and the error returned. */
  datatype Outcome = Outcome(reported: seq<Change>, err: Option<PathError>)

  /** The worker loops, run one request at a time from the front of the worklist until it
      is empty. A walk's error replaces the recorded one; a comparison reports Modify
      when the contents differ. */
  function Run(tr: Trees, queue: seq<Task>, reported: seq<Change>, err: Option<PathError>): Outcome
    requires ValidTrees(tr) && WellFormed(tr, queue)
    decreases Potential(Bounds(tr).0, Bounds(tr).1, queue)
  {
    if queue == [] then Outcome(reported, err)
    else
      var t, rest := queue[0], queue[1..];
      var b, m := Bounds(tr).0, Bounds(tr).1;
      assert Potential(b, m, queue) == TaskPotential(b, m, t) + Potential(b, m, rest);
      match t
      case WalkTask(p, i1, i2) =>
        var s := WalkStep(tr, p, i1, i2);
        WalkStepWellFormed(tr, p, i1, i2);
        WalkStepDecreases(tr, b, m, p, i1, i2);
        PotentialAppend(b, m, rest, s.tasks);
        Run(tr, rest + s.tasks, reported + s.reported, if s.err.Some? then s.err else err)
      case CompareTask(_, _, _, _) =>
        Run(tr, rest, reported + CompareReport(tr, t), err)
  }

  /** One walk request served: its changes are reported, its children and comparisons
      queued behind the rest, its error (if any) recorded; the worklist loses potential. */
  lemma RunWalkStep(tr: Trees, queue: seq<Task>, reported: seq<Change>, err: Option<PathError>)
    requires ValidTrees(tr) && WellFormed(tr, queue) && queue != [] && queue[0].WalkTask?
    ensures var t := queue[0];
      var s := WalkStep(tr, t.path, t.i1, t.i2);
      var b, m := Bounds(tr).0, Bounds(tr).1;
      WellFormed(tr, queue[1..] + s.tasks) &&
      Potential(b, m, queue[1..] + s.tasks) < Potential(b, m, queue) &&
      Run(tr, queue, reported, err) ==
        Run(tr, queue[1..] + s.tasks, reported + s.reported, if s.err.Some? then s.err else err)
  {
    var t := queue[0];
    var b, m := Bounds(tr).0, Bounds(tr).1;
    assert Potential(b, m, queue) == TaskPotential(b, m, t) + Potential(b, m, queue[1..]);
    WalkStepWellFormed(tr, t.path, t.i1, t.i2);
    WalkStepDecreases(tr, b, m, t.path, t.i1, t.i2);
    PotentialAppend(b, m, queue[1..], WalkStep(tr, t.path, t.i1, t.i2).tasks);
  }

  /** One comparison request served: Modify is reported when the contents differ. */
  lemma RunCompareStep(tr: Trees, queue: seq<Task>, reported: seq<Change>, err: Option<PathError>)
    requires ValidTrees(tr) && WellFormed(tr, queue) && queue != [] && queue[0].CompareTask?
    ensures var b, m := Bounds(tr).0, Bounds(tr).1;
      WellFormed(tr, queue[1..]) &&
      Potential(b, m, queue[1..]) < Potential(b, m, queue) &&
      Run(tr, queue, reported, err) == Run(tr, queue[1..], reported + CompareReport(tr, queue[0]), err)
  {
    var b, m := Bounds(tr).0, Bounds(tr).1;
    assert Potential(b, m, queue) == TaskPotential(b, m, queue[0]) + Potential(b, m, queue[1..]);
  }

  /** An error once recorded is never cleared: later walk errors only replace it. */
  lemma {:induction false} RunKeepsError(tr: Trees, queue: seq<Task>, reported: seq<Change>, err: Option<PathError>)
    requires ValidTrees(tr) && WellFormed(tr, queue) && err.Some?
    ensures Run(tr, queue, reported, err).err.Some?
    decreases Potential(Bounds(tr).0, Bounds(tr).1, queue)
  {
    if queue != [] {
      if queue[0].WalkTask? {
        RunWalkStep(tr, queue, reported, err);
        var s := WalkStep(tr, queue[0].path, queue[0].i1, queue[0].i2);
        RunKeepsError(tr, queue[1..] + s.tasks, reported + s.reported, if s.err.Some? then s.err else err);
      } else {
        RunCompareStep(tr, queue, reported, err);
        RunKeepsError(tr, queue[1..], reported + CompareReport(tr, queue[0]), err);
      }
    }
  }

  /** Output is only ever appended to: what was reported stays a prefix of the result. */
  lemma {:induction false} RunExtends(tr: Trees, queue: seq<Task>, reported: seq<Change>, err: Option<PathError>)
    requires ValidTrees(tr) && WellFormed(tr, queue)
    ensures var o := Run(tr, queue, reported, err);
      |reported| <= |o.reported| && o.reported[..|reported|] == reported
    decreases Potential(Bounds(tr).0, Bounds(tr).1, queue)
  {
    if queue != [] {
      if queue[0].WalkTask? {
        RunWalkStep(tr, queue, reported, err);
        var s := WalkStep(tr, queue[0].path, queue[0].i1, queue[0].i2);
        RunExtends(tr, queue[1..] + s.tasks, reported + s.reported, if s.err.Some? then s.err else err);
        PrefixOfPrefix(reported, s.reported, Run(tr, queue, reported, err).reported);
      } else {
        RunCompareStep(tr, queue, reported, err);
        RunExtends(tr, queue[1..], reported + CompareReport(tr, queue[0]), err);
        PrefixOfPrefix(reported, CompareReport(tr, queue[0]), Run(tr, queue, reported, err).reported);
      }
    }
  }

  lemma PrefixOfPrefix(a: seq<Change>, b: seq<Change>, c: seq<Change>)
    requires |a + b| <= |c| && c[..|a + b|] == a + b
    ensures |a| <= |c| && c[..|a|] == a
  {
    assert c[..|a|] == (a + b)[..|a|];
  }

  /** The trees as the walker sees them after root normalisation. */
  function TreesOf(fs1: FS, fs2: FS, root1: string, root2: string): Trees {
    Trees(fs1, fs2, NormalizeRoot(root1), NormalizeRoot(root2))
  }

  /** What kickOffWalker does: lstat both roots, failing on the first error, then walk the
      root pair under the relative path "". */
  datatype Kick = RootFailed(err: PathError) | Kicked(step: StepResult)

  function KickOff(tr: Trees): Kick {
    match Lstat(tr.fs1, "")
    case LstatFailed(e) => RootFailed(PathError(LstatOp, First, "", e))
    case Found(st1) =>
      match Lstat(tr.fs2, "")
      case LstatFailed(e) => RootFailed(PathError(LstatOp, Second, "", e))
      case Found(st2) => Kicked(WalkStep(tr, "", Some(st1), Some(st2)))
  }

  /** The whole comparison of two normalised trees: the kick-off walk, returning at once
      on its error, then the run of everything it queued. */
  function DiffTrees(tr: Trees): Outcome
    requires ValidTrees(tr)
  {
    match KickOff(tr)
    case RootFailed(e) => Outcome([], Some(e))
    case Kicked(s) =>
      if s.err.Some? then Outcome(s.reported, s.err)
      else
        WalkStepWellFormed(tr, "", Some(Lstat(tr.fs1, "").stat), Some(Lstat(tr.fs2, "").stat));
        Run(tr, s.tasks, s.reported, None)
  }

  /** The comparison of two trees under the roots as given. */
  function Diff(fs1: FS, fs2: FS, root1: string, root2: string): Outcome
    requires ValidFs(fs1) && ValidFs(fs2)
  {
    DiffTrees(TreesOf(fs1, fs2, root1, root2))
  }

  /** A root that cannot be lstat'ed ends the comparison before anything is reported,
      with that lstat's error; the first root is tried first. */
  lemma RootLstatFails(fs1: FS, fs2: FS, root1: string, root2: string)
    requires ValidFs(fs1) && ValidFs(fs2)
    requires Lstat(fs1, "").LstatFailed? || Lstat(fs2, "").LstatFailed?
    ensures Diff(fs1, fs2, root1, root2).reported == []
    ensures Lstat(fs1, "").LstatFailed? ==>
      Diff(fs1, fs2, root1, root2).err == Some(PathError(LstatOp, First, "", Lstat(fs1, "").errno))
    ensures Lstat(fs1, "").Found? ==>
      Diff(fs1, fs2, root1, root2).err == Some(PathError(LstatOp, Second, "", Lstat(fs2, "").errno))
  {
  }

  /** A missing root is not a deletion: an absent root directory is an error. */
  lemma MissingRootIsError(fs1: FS, fs2: FS, root1: string, root2: string)
    requires ValidFs(fs1) && ValidFs(fs2) && "" !in fs1
    ensures Diff(fs1, fs2, root1, root2) == Outcome([], Some(PathError(LstatOp, First, "", ENOENT)))
  {
  }

  /** A failing kick-off walk ends the comparison with its own changes and error;
      whatever it reported stays at the front of the output in every case. */
  lemma KickOffErrorReturned(fs1: FS, fs2: FS, root1: string, root2: string)
    requires ValidFs(fs1) && ValidFs(fs2)
    requires KickOff(TreesOf(fs1, fs2, root1, root2)).Kicked?
    ensures var s := KickOff(TreesOf(fs1, fs2, root1, root2)).step;
      s.err.Some? ==> Diff(fs1, fs2, root1, root2) == Outcome(s.reported, s.err)
    ensures var s := KickOff(TreesOf(fs1, fs2, root1, root2)).step;
      |s.reported| <= |Diff(fs1, fs2, root1, root2).reported| &&
      Diff(fs1, fs2, root1, root2).reported[..|s.reported|] == s.reported
  {
    var tr := TreesOf(fs1, fs2, root1, root2);
    var s := KickOff(tr).step;
    if s.err.None? {
      WalkStepWellFormed(tr, "", Some(Lstat(fs1, "").stat), Some(Lstat(fs2, "").stat));
      RunExtends(tr, s.tasks, s.reported, None);
    }
  }

  // ---------------------------------------------------------------------------
  // The imperative driver

  /** kickOffWalker. */
  method KickOffWalker(w: Walker) returns (e: Option<PathError>)
    requires w.Valid() && w.queue == []
    modifies w, w.out
    ensures w.Valid()
    ensures match KickOff(w.Env())
      case RootFailed(err) =>
        e == Some(err) && w.queue == [] && w.requests == old(w.requests) && w.out.log == old(w.out.log)
      case Kicked(s) =>
        e == s.err && w.queue == s.tasks && w.requests == old(w.requests) + |s.tasks| &&
        w.out.log == old(w.out.log) + s.reported
    ensures w.err == old(w.err)
  {
    var r1 := Lstat(w.fs1, "");
    if r1.LstatFailed? {
      return Some(PathError(LstatOp, First, "", r1.errno));
    }
    var r2 := Lstat(w.fs2, "");
    if r2.LstatFailed? {
      return Some(PathError(LstatOp, Second, "", r2.errno));
    }
    e := w.Walk("", Some(r1.stat), Some(r2.stat));
  }

  /** A worker serving a walk request it has received: the walk's error, if any,
      replaces the recorded one. */
  method ServeWalk(w: Walker, ghost tr: Trees, t: Task)
    requires ValidTrees(tr) && w.Valid() && w.Env() == tr && w.requests == |w.queue| + 1
    requires t.WalkTask? && WellFormed(tr, [t] + w.queue)
    modifies w, w.out
    ensures w.Valid() && w.requests == |w.queue| + 1
    ensures var s := WalkStep(tr, t.path, t.i1, t.i2);
      w.out.log == old(w.out.log) + s.reported && w.queue == old(w.queue) + s.tasks &&
      w.err == (if s.err.Some? then s.err else old(w.err))
    ensures Run(tr, w.queue, w.out.log, w.err) == old(Run(tr, [t] + w.queue, w.out.log, w.err))
    ensures Potential(Bounds(tr).0, Bounds(tr).1, w.queue) < old(Potential(Bounds(tr).0, Bounds(tr).1, [t] + w.queue))
  {
    RunWalkStep(tr, [t] + w.queue, w.out.log, w.err);
    assert ([t] + w.queue)[0] == t && ([t] + w.queue)[1..] == w.queue;
    var werr := w.Walk(t.path, t.i1, t.i2);
    if werr.Some? {
      w.err := werr;
    }
  }

  /** A worker serving a comparison request it has received: Modify is reported when
      mmapCompare returns a nonzero result. */
  method ServeCompare(w: Walker, ghost tr: Trees, t: Task)
    requires ValidTrees(tr) && w.Valid() && w.Env() == tr && w.requests == |w.queue| + 1
    requires t.CompareTask? && WellFormedTask(tr, t) && WellFormed(tr, [t] + w.queue)
    modifies w.out
    ensures w.Valid()
    ensures w.out.log == old(w.out.log) + CompareReport(tr, t)
    ensures w.queue == old(w.queue) && w.requests == old(w.requests) && w.err == old(w.err)
    ensures Run(tr, w.queue, w.out.log, w.err) == old(Run(tr, [t] + w.queue, w.out.log, w.err))
    ensures Potential(Bounds(tr).0, Bounds(tr).1, w.queue) < old(Potential(Bounds(tr).0, Bounds(tr).1, [t] + w.queue))
  {
    RunCompareStep(tr, [t] + w.queue, w.out.log, w.err);
    assert ([t] + w.queue)[0] == t && ([t] + w.queue)[1..] == w.queue;
    CompareRequestStatsOk(tr, t);
    ghost var log0 := w.out.log;
    assert w.fs1 == tr.fs1 && w.fs2 == tr.fs2;
    var r, trace := MmapCompare(ProbeOf(w.fs1, t.path), ProbeOf(w.fs2, t.path), t.size);
    if r != 0 {
      w.out.ReportChange(t.path, ChangeModify);
      assert CompareReport(tr, t) == [Change(ChangeModify, t.path)];
    } else {
      assert CompareReport(tr, t) == [];
    }
    assert w.out.log == log0 + CompareReport(tr, t);
  }

  /** One worker turn: receive the oldest request, serve it, and mark it done. The
      outcome of the rest of the run is unchanged, and the worklist loses potential. */
  method Serve(w: Walker, ghost tr: Trees)
    requires ValidTrees(tr) && w.Valid() && w.Env() == tr && w.queue != [] && w.requests == |w.queue|
    modifies w, w.out
    ensures w.Valid() && w.requests == |w.queue|
    ensures Run(tr, w.queue, w.out.log, w.err) == old(Run(tr, w.queue, w.out.log, w.err))
    ensures Potential(Bounds(tr).0, Bounds(tr).1, w.queue) < old(Potential(Bounds(tr).0, Bounds(tr).1, w.queue))
  {
    ghost var q := w.queue;
    var t := w.Receive();
    assert q == [t] + w.queue;
    if t.WalkTask? {
      ServeWalk(w, tr, t);
    } else {
      ServeCompare(w, tr, t);
    }
    w.Done();
  }

  /** The worker loops: serve requests until the counter is back to zero. The outcome
      is what Run predicts from the worklist, log and error on entry. */
  method Drain(w: Walker, ghost tr: Trees)
    requires ValidTrees(tr) && w.Valid() && w.Env() == tr && w.requests == |w.queue|
    modifies w, w.out
    ensures w.Valid() && w.queue == []
    ensures Outcome(w.out.log, w.err) == old(Run(tr, w.queue, w.out.log, w.err))
  {
    ghost var final := Run(tr, w.queue, w.out.log, w.err);
    while w.requests != 0
      invariant w.Valid() && w.Env() == tr
      invariant w.requests == |w.queue|
      invariant Run(tr, w.queue, w.out.log, w.err) == final
      decreases Potential(Bounds(tr).0, Bounds(tr).1, w.queue)
    {
      Serve(w, tr);
    }
  }

  /** kickOffWalker followed, when it succeeds, by the worker loops; the error returned is
      the kick-off's or, after the drain, the last one a walk recorded. */
  method KickOffAndDrain(w: Walker) returns (e: Option<PathError>)
    requires ValidTrees(w.Env()) && w.Valid() && w.queue == [] && w.requests == 0
    requires w.err == None && w.out.log == []
    modifies w, w.out
    ensures w.Valid() && Outcome(w.out.log, e) == DiffTrees(w.Env())
  {
    ghost var tr := w.Env();
    e := KickOffWalker(w);
    if e.Some? {
      return;
    }
    WalkStepWellFormed(tr, "", Some(Lstat(tr.fs1, "").stat), Some(Lstat(tr.fs2, "").stat));
    Drain(w, tr);
    e := w.err;
  }

  /** Changes: normalise the roots, kick off the walk, then drain the requests. The
      returned slice stays empty, since nothing is sent on the changes channel; the
      changes go to standard output, returned here as text. */
  method Changes(fs1: FS, fs2: FS, dir1: string, dir2: string)
    returns (changes: seq<Change>, err: Option<PathError>, stdout: string)
    requires ValidFs(fs1) && ValidFs(fs2)
    ensures changes == []
    ensures err == Diff(fs1, fs2, dir1, dir2).err
    ensures stdout == Render(Diff(fs1, fs2, dir1, dir2).reported)
  {
    var d1, d2 := dir1, dir2;
    if !HasSlashSuffix(d1) {
      d1 := d1 + "/";
    }
    if !HasSlashSuffix(d2) {
      d2 := d2 + "/";
    }
    var out := new Output();
    var w := new Walker(fs1, fs2, d1, d2, out);
    changes := [];
    ghost var tr := w.Env();
    assert tr == TreesOf(fs1, fs2, dir1, dir2);

    err := KickOffAndDrain(w);
    stdout := out.text;
  }
}
