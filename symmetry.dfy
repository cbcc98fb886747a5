/** Swapping the two trees: every Add becomes a Delete and back, in the same order, and
    the comparison fails exactly when it failed before. Which side's error is returned
    may change, since side one is always read first. */
module Symmetry {
  import opened Base
  import opened Fs
  import opened FsErrors
  import opened ChangeRecords
  import opened ContentCompare
  import opened Walker
  import opened Treediff

  function SwapTrees(tr: Trees): Trees {
    Trees(tr.fs2, tr.fs1, tr.dir2, tr.dir1)
  }

  /** A request as the swapped comparison makes it: the two sides trade places. */
  function SwapTask(t: Task): Task {
    match t
    case WalkTask(p, i1, i2) => WalkTask(p, i2, i1)
    case CompareTask(p, p1, p2, size) => CompareTask(p, p2, p1, size)
  }

  function SwapAll(q: seq<Task>): (r: seq<Task>)
    ensures |r| == |q|
    ensures forall k :: 0 <= k < |q| ==> r[k] == SwapTask(q[k])
  {
    seq(|q|, k requires 0 <= k < |q| => SwapTask(q[k]))
  }

  lemma SwapAllAppend(a: seq<Task>, b: seq<Task>)
    ensures SwapAll(a + b) == SwapAll(a) + SwapAll(b)
  {
  }

  /** A request is well formed for the swapped trees exactly when it was for the
      original ones. */
  lemma SwapWellFormed(tr: Trees, q: seq<Task>)
    ensures WellFormed(SwapTrees(tr), SwapAll(q)) <==> WellFormed(tr, q)
  {
    assert forall k :: 0 <= k < |q| ==> (WellFormedTask(SwapTrees(tr), SwapAll(q)[k]) <==> WellFormedTask(tr, q[k]));
  }

  // ---------------------------------------------------------------------------
  // One walk

  /** The classification with the sides swapped: Delete and Add trade places, and the
      content comparison is queued with the paths swapped and the same size. */
  lemma ClassifySymmetric(tr: Trees, path: string, i1: Option<Stat>, i2: Option<Stat>)
    ensures Classify(SwapTrees(tr), path, i2, i1).reported == MirrorAll(Classify(tr, path, i1, i2).reported)
    ensures Classify(SwapTrees(tr), path, i2, i1).compare == SwapAll(Classify(tr, path, i1, i2).compare)
  {
  }

  /** Listing with the sides swapped fails exactly when listing failed, and otherwise
      yields the two listings swapped. */
  lemma ListBothSymmetric(tr: Trees, path: string, is1Dir: bool, is2Dir: bool)
    ensures var l, l' := ListBoth(tr, path, is1Dir, is2Dir), ListBoth(SwapTrees(tr), path, is2Dir, is1Dir);
      l.Listed? == l'.Listed? && (l.Listed? ==> l'.names1 == l.names2 && l'.names2 == l.names1)
  {
  }

  /** One child with the sides swapped, after swapped predecessors. */
  lemma ChildStepSymmetric(tr: Trees, path: string, name: string, is1Dir: bool, is2Dir: bool, prev: Spawned, prev': Spawned)
    requires prev'.tasks == SwapAll(prev.tasks) && prev'.err.Some? == prev.err.Some?
    ensures var sp, sp' := ChildStep(tr, path, name, is1Dir, is2Dir, prev), ChildStep(SwapTrees(tr), path, name, is2Dir, is1Dir, prev');
      sp'.tasks == SwapAll(sp.tasks) && sp'.err.Some? == sp.err.Some?
  {
    var fname := Join(path, name);
    assert ChildOk(SwapTrees(tr), is2Dir, is1Dir, fname) == ChildOk(tr, is1Dir, is2Dir, fname);
    if prev.err.None? && ChildOk(tr, is1Dir, is2Dir, fname) {
      assert ChildWalk(SwapTrees(tr), path, name, is2Dir, is1Dir) == SwapTask(ChildWalk(tr, path, name, is1Dir, is2Dir));
      SwapAllAppend(prev.tasks, [ChildWalk(tr, path, name, is1Dir, is2Dir)]);
    }
  }

  /** Child scheduling with the sides swapped sends the swapped requests and fails
      exactly when it failed. */
  lemma {:induction false} ChildTasksSymmetric(tr: Trees, path: string, names: seq<string>, is1Dir: bool, is2Dir: bool)
    ensures var sp, sp' := ChildTasks(tr, path, names, is1Dir, is2Dir), ChildTasks(SwapTrees(tr), path, names, is2Dir, is1Dir);
      sp'.tasks == SwapAll(sp.tasks) && sp'.err.Some? == sp.err.Some?
    decreases |names|
  {
    if names != [] {
      var init := names[..|names| - 1];
      ChildTasksSymmetric(tr, path, init, is1Dir, is2Dir);
      ChildStepSymmetric(tr, path, names[|names| - 1], is1Dir, is2Dir,
                         ChildTasks(tr, path, init, is1Dir, is2Dir), ChildTasks(SwapTrees(tr), path, init, is2Dir, is1Dir));
    }
  }

  /** One walk with the sides swapped reports the mirrored changes, queues the swapped
      requests in the same order, and fails exactly when the walk failed. */
  lemma WalkStepSymmetric(tr: Trees, path: string, i1: Option<Stat>, i2: Option<Stat>)
    ensures var s, s' := WalkStep(tr, path, i1, i2), WalkStep(SwapTrees(tr), path, i2, i1);
      s'.reported == MirrorAll(s.reported) && s'.tasks == SwapAll(s.tasks) && s'.err.Some? == s.err.Some?
  {
    ClassifySymmetric(tr, path, i1, i2);
    var is1Dir, is2Dir := IsDir(i1), IsDir(i2);
    if is1Dir || is2Dir {
      ListBothSymmetric(tr, path, is1Dir, is2Dir);
      var l := ListBoth(tr, path, is1Dir, is2Dir);
      if l.Listed? {
        var sd := SameDevice(i1, i2);
        assert SameDevice(i2, i1) == sd;
        MergedSymmetric(l.names1, l.names2, sd);
        var names := MergedNames(l.names1, l.names2, sd);
        ChildTasksSymmetric(tr, path, names, is1Dir, is2Dir);
        SwapAllAppend(Classify(tr, path, i1, i2).compare, ChildTasks(tr, path, names, is1Dir, is2Dir).tasks);
      }
    }
  }

  /** A content comparison with the sides swapped reports the same Modify, or nothing. */
  lemma CompareReportSymmetric(tr: Trees, t: Task)
    requires t.CompareTask? && WellFormedTask(tr, t)
    ensures WellFormedTask(SwapTrees(tr), SwapTask(t))
    ensures CompareReport(SwapTrees(tr), SwapTask(t)) == MirrorAll(CompareReport(tr, t))
  {
    CompareRequestStatsOk(tr, t);
    CompareSymmetric(ProbeOf(tr.fs1, t.path), ProbeOf(tr.fs2, t.path), t.size);
  }

  // ---------------------------------------------------------------------------
  // The whole run

  /** The run with the sides swapped reports the mirrored changes and ends in an error
      exactly when the run did. */
  lemma {:induction false} RunSymmetric(tr: Trees, queue: seq<Task>, reported: seq<Change>, err: Option<PathError>,
                                        err': Option<PathError>)
    requires ValidTrees(tr) && WellFormed(tr, queue) && err'.Some? == err.Some?
    ensures ValidTrees(SwapTrees(tr)) && WellFormed(SwapTrees(tr), SwapAll(queue))
    ensures var o, o' := Run(tr, queue, reported, err), Run(SwapTrees(tr), SwapAll(queue), MirrorAll(reported), err');
      o'.reported == MirrorAll(o.reported) && o'.err.Some? == o.err.Some?
    decreases Potential(Bounds(tr).0, Bounds(tr).1, queue)
  {
    var str := SwapTrees(tr);
    SwapWellFormed(tr, queue);
    if queue != [] {
      var t := queue[0];
      var sq := SwapAll(queue);
      assert sq[0] == SwapTask(t) && sq[1..] == SwapAll(queue[1..]);
      if t.WalkTask? {
        RunWalkStep(tr, queue, reported, err);
        RunWalkStep(str, sq, MirrorAll(reported), err');
        var s := WalkStep(tr, t.path, t.i1, t.i2);
        WalkStepSymmetric(tr, t.path, t.i1, t.i2);
        SwapAllAppend(queue[1..], s.tasks);
        MirrorAllConcat(reported, s.reported);
        RunSymmetric(tr, queue[1..] + s.tasks, reported + s.reported, if s.err.Some? then s.err else err,
                     if s.err.Some? then WalkStep(str, t.path, t.i2, t.i1).err else err');
      } else {
        RunCompareStep(tr, queue, reported, err);
        RunCompareStep(str, sq, MirrorAll(reported), err');
        CompareReportSymmetric(tr, t);
        MirrorAllConcat(reported, CompareReport(tr, t));
        RunSymmetric(tr, queue[1..], reported + CompareReport(tr, t), err, err');
      }
    }
  }

  /** Comparing the second tree against the first reports every change of the first
      comparison, in the same order, with Add and Delete swapped; and one comparison
      fails exactly when the other fails. */
  lemma DiffSymmetric(fs1: FS, fs2: FS, root1: string, root2: string)
    requires ValidFs(fs1) && ValidFs(fs2)
    ensures Diff(fs2, fs1, root2, root1).reported == MirrorAll(Diff(fs1, fs2, root1, root2).reported)
    ensures Diff(fs2, fs1, root2, root1).err.Some? == Diff(fs1, fs2, root1, root2).err.Some?
  {
    var tr := TreesOf(fs1, fs2, root1, root2);
    assert TreesOf(fs2, fs1, root2, root1) == SwapTrees(tr);
    if Lstat(fs1, "").Found? && Lstat(fs2, "").Found? {
      var st1, st2 := Lstat(fs1, "").stat, Lstat(fs2, "").stat;
      var s := WalkStep(tr, "", Some(st1), Some(st2));
      WalkStepSymmetric(tr, "", Some(st1), Some(st2));
      if s.err.None? {
        WalkStepWellFormed(tr, "", Some(st1), Some(st2));
        RunSymmetric(tr, s.tasks, s.reported, None, None);
      }
    }
  }
}
