/** Each path is reported at most once, and the root never. A request only reports
    changes at its own path, and a walk only queues requests strictly inside the
    directory it walks (or a comparison at its own path). The paths still pending therefore stay pairwise
    disjoint subtrees that contain nothing reported so far. */
module Uniqueness {
  import opened Base
  import opened Fs
  import opened FsErrors
  import opened ChangeRecords
  import opened Walker
  import opened Treediff

  // ---------------------------------------------------------------------------
  // Subtrees of relative paths

  /** x is p itself or lies inside the directory p; everything lies inside the root "". */
  predicate Below(p: string, x: string) {
    p == "" || x == p || (|p| < |x| && x[..|p|] == p && x[|p|] == '/')
  }

  /** Neither path lies inside the other. */
  predicate Apart(p: string, q: string) {
    !Below(p, q) && !Below(q, p)
  }

  /** c names an entry of the directory p: p joined with one non-empty name that holds
      no separator. */
  predicate IsChild(p: string, c: string) {
    if p == "" then c != "" && '/' !in c
    else |p| + 1 < |c| && c[..|p|] == p && c[|p|] == '/' && '/' !in c[|p| + 1..]
  }

  lemma BelowTransitive(a: string, b: string, c: string)
    requires Below(a, b) && Below(b, c)
    ensures Below(a, c)
  {
    if a != "" && a != b && b != c {
      assert c[..|a|] == c[..|b|][..|a|];
      assert c[|a|] == c[..|b|][|a|];
    }
  }

  /** Joining a directory with an entry name gives one of its children. */
  lemma JoinIsChild(p: string, a: string)
    requires a != "" && '/' !in a
    ensures IsChild(p, Join(p, a))
  {
    JoinPrefix(p, a);
  }

  /** Different names give different children. */
  lemma JoinInjective(p: string, a: string, b: string)
    requires Join(p, a) == Join(p, b)
    ensures a == b
  {
    JoinPrefix(p, a);
    JoinPrefix(p, b);
  }

  /** A child lies strictly inside its directory. */
  lemma ChildBelowParent(p: string, c: string)
    requires IsChild(p, c)
    ensures Below(p, c) && !Below(c, p) && c != p
  {
  }

  /** Whatever contains a child, other than the child itself, contains its directory. */
  lemma AboveChild(t: string, p: string, c: string)
    requires IsChild(p, c) && Below(t, c) && t != c
    ensures Below(t, p)
  {
    if t != "" && p != "" && |t| <= |p| {
      if |t| == |p| {
        assert t == c[..|p|];
      } else {
        assert p[..|t|] == c[..|t|];
        assert p[|t|] == c[|t|];
      }
    }
  }

  /** A path disjoint from a directory is disjoint from each of its children. */
  lemma ChildApart(p: string, c: string, t: string)
    requires IsChild(p, c) && Apart(p, t)
    ensures Apart(c, t)
  {
    ChildBelowParent(p, c);
    if Below(c, t) {
      BelowTransitive(p, c, t);
    }
    if Below(t, c) && t != c {
      AboveChild(t, p, c);
    }
  }

  /** Two different children of one directory are disjoint. */
  lemma SiblingsApart(p: string, c: string, d: string)
    requires IsChild(p, c) && IsChild(p, d) && c != d
    ensures Apart(c, d)
  {
    ChildBelowParent(p, c);
    ChildBelowParent(p, d);
    if Below(c, d) {
      AboveChild(c, p, d);
    }
    if Below(d, c) {
      AboveChild(d, p, c);
    }
  }

  // ---------------------------------------------------------------------------
  // The invariant of a run

  function TaskPaths(q: seq<Task>): (r: seq<string>)
    ensures |r| == |q|
    ensures forall k :: 0 <= k < |q| ==> r[k] == q[k].path
  {
    seq(|q|, k requires 0 <= k < |q| => q[k].path)
  }

  function ChangePaths(cs: seq<Change>): (r: seq<string>)
    ensures |r| == |cs|
    ensures forall k :: 0 <= k < |cs| ==> r[k] == cs[k].path
  {
    seq(|cs|, k requires 0 <= k < |cs| => cs[k].path)
  }

  predicate Distinct(s: seq<string>) {
    forall i, j :: 0 <= i < j < |s| ==> s[i] != s[j]
  }

  predicate PairwiseApart(s: seq<string>) {
    forall i, j :: 0 <= i < j < |s| ==> Apart(s[i], s[j])
  }

  /** No path reported so far lies inside a path still pending. */
  predicate Outside(done: seq<string>, pending: seq<string>) {
    forall i, j :: 0 <= i < |done| && 0 <= j < |pending| ==> !Below(pending[j], done[i])
  }

  /** The reported paths are distinct, and the pending paths are disjoint subtrees that
      hold none of them. */
  predicate Spread(done: seq<string>, pending: seq<string>) {
    Distinct(done) && PairwiseApart(pending) && Outside(done, pending)
  }

  predicate Children(p: string, kids: seq<string>) {
    Distinct(kids) && forall k :: 0 <= k < |kids| ==> IsChild(p, kids[k])
  }

  /** What serving the request for p adds: at most one change, at p, and then either
      only a comparison at p, or distinct children of p. */
  predicate StepShape(p: string, newDone: seq<string>, newPending: seq<string>) {
    |newDone| <= 1 && (forall i :: 0 <= i < |newDone| ==> newDone[i] == p) &&
    ((newDone == [] && newPending == [p]) || Children(p, newPending))
  }

  /** The facts about the served path p that the invariant gives. */
  lemma HeadApart(done: seq<string>, p: string, rest: seq<string>)
    requires Spread(done, [p] + rest)
    ensures PairwiseApart(rest)
    ensures forall j :: 0 <= j < |rest| ==> Apart(p, rest[j])
    ensures forall i :: 0 <= i < |done| ==> !Below(p, done[i])
    ensures Outside(done, rest)
  {
    var pending := [p] + rest;
    forall i, j | 0 <= i < j < |rest|
      ensures Apart(rest[i], rest[j])
    {
      assert pending[i + 1] == rest[i] && pending[j + 1] == rest[j];
    }
    forall j | 0 <= j < |rest|
      ensures Apart(p, rest[j])
    {
      assert pending[0] == p && pending[j + 1] == rest[j];
    }
    forall i | 0 <= i < |done|
      ensures !Below(p, done[i])
    {
      assert pending[0] == p;
    }
    forall i, j | 0 <= i < |done| && 0 <= j < |rest|
      ensures !Below(rest[j], done[i])
    {
      assert pending[j + 1] == rest[j];
    }
  }

  lemma StepDistinct(done: seq<string>, p: string, newDone: seq<string>)
    requires Distinct(done) && forall i :: 0 <= i < |done| ==> !Below(p, done[i])
    requires forall i :: 0 <= i < |newDone| ==> newDone[i] == p
    requires |newDone| <= 1
    ensures Distinct(done + newDone)
  {
  }

  lemma StepApart(p: string, rest: seq<string>, newPending: seq<string>)
    requires PairwiseApart(rest) && forall j :: 0 <= j < |rest| ==> Apart(p, rest[j])
    requires newPending == [p] || Children(p, newPending)
    ensures PairwiseApart(rest + newPending)
  {
    var s := rest + newPending;
    forall i, j | 0 <= i < j < |s|
      ensures Apart(s[i], s[j])
    {
      if j < |rest| {
        assert s[i] == rest[i] && s[j] == rest[j];
      } else if i < |rest| {
        assert s[i] == rest[i] && s[j] == newPending[j - |rest|];
        if newPending != [p] {
          ChildApart(p, newPending[j - |rest|], rest[i]);
        }
      } else {
        assert s[i] == newPending[i - |rest|] && s[j] == newPending[j - |rest|];
        SiblingsApart(p, s[i], s[j]);
      }
    }
  }

  lemma StepOutside(done: seq<string>, p: string, rest: seq<string>, newDone: seq<string>, newPending: seq<string>)
    requires Outside(done, rest) && forall j :: 0 <= j < |rest| ==> Apart(p, rest[j])
    requires forall i :: 0 <= i < |done| ==> !Below(p, done[i])
    requires StepShape(p, newDone, newPending)
    ensures Outside(done + newDone, rest + newPending)
  {
    var d, s := done + newDone, rest + newPending;
    forall i, j | 0 <= i < |d| && 0 <= j < |s|
      ensures !Below(s[j], d[i])
    {
      if i < |done| && j < |rest| {
        assert d[i] == done[i] && s[j] == rest[j];
      } else if i < |done| {
        assert d[i] == done[i] && s[j] == newPending[j - |rest|];
        if newPending != [p] && Below(s[j], d[i]) {
          BelowTransitive(p, s[j], d[i]);
        }
      } else if j < |rest| {
        assert d[i] == p && s[j] == rest[j];
      } else {
        assert d[i] == p && s[j] == newPending[j - |rest|];
        ChildBelowParent(p, s[j]);
      }
    }
  }

  /** Serving one request keeps the invariant. */
  lemma StepSpread(done: seq<string>, p: string, rest: seq<string>, newDone: seq<string>, newPending: seq<string>)
    requires Spread(done, [p] + rest) && StepShape(p, newDone, newPending)
    ensures Spread(done + newDone, rest + newPending)
  {
    HeadApart(done, p, rest);
    StepDistinct(done, p, newDone);
    StepApart(p, rest, newPending);
    StepOutside(done, p, rest, newDone, newPending);
  }

  // ---------------------------------------------------------------------------
  // What one walk adds

  /** Every listing is in strictly increasing name order, and no entry name holds the
      path separator, as readdirnames delivers them for the walker. */
  ghost predicate WellListed(fs: FS) {
    forall p :: p in fs && fs[p].Entry? && fs[p].listing.Names? ==>
      Sorted(fs[p].listing.entries) &&
      forall i :: 0 <= i < |fs[p].listing.entries| ==> '/' !in fs[p].listing.entries[i].name
  }

  ghost predicate WellListedTrees(tr: Trees) {
    ValidTrees(tr) && WellListed(tr.fs1) && WellListed(tr.fs2)
  }

  /** The names a walk merges are distinct, non-empty and free of separators. */
  lemma MergedNamesAreEntries(tr: Trees, path: string, is1Dir: bool, is2Dir: bool, sameDevice: bool)
    requires WellListedTrees(tr) && ListBoth(tr, path, is1Dir, is2Dir).Listed?
    ensures var l := ListBoth(tr, path, is1Dir, is2Dir);
      var names := MergedNames(l.names1, l.names2, sameDevice);
      (forall k :: 0 <= k < |names| ==> names[k] != "" && '/' !in names[k]) &&
      forall i, j :: 0 <= i < j < |names| ==> names[i] != names[j]
  {
    var l := ListBoth(tr, path, is1Dir, is2Dir);
    var names := MergedNames(l.names1, l.names2, sameDevice);
    ListedNamesNonEmpty(tr, path, is1Dir, is2Dir, sameDevice);
    MergedFromListings(l.names1, l.names2, sameDevice);
    MergedStrictlyIncreasing(l.names1, l.names2, sameDevice);
    forall k | 0 <= k < |names|
      ensures '/' !in names[k]
    {
      assert names[k] in names;
      if names[k] in NamesOf(l.names1) {
        var j :| 0 <= j < |l.names1| && NamesOf(l.names1)[j] == names[k];
      } else {
        var j :| 0 <= j < |l.names2| && NamesOf(l.names2)[j] == names[k];
      }
    }
  }

  /** The walk requests for distinct entry names of path are distinct children of it. */
  lemma ChildTasksAreChildren(tr: Trees, path: string, names: seq<string>, is1Dir: bool, is2Dir: bool)
    requires forall k :: 0 <= k < |names| ==> names[k] != "" && '/' !in names[k]
    requires forall i, j :: 0 <= i < j < |names| ==> names[i] != names[j]
    ensures Children(path, TaskPaths(ChildTasks(tr, path, names, is1Dir, is2Dir).tasks))
  {
    var kids := TaskPaths(ChildTasks(tr, path, names, is1Dir, is2Dir).tasks);
    forall k | 0 <= k < |kids|
      ensures IsChild(path, kids[k])
    {
      JoinIsChild(path, names[k]);
    }
    forall i, j | 0 <= i < j < |kids|
      ensures kids[i] != kids[j]
    {
      if kids[i] == kids[j] {
        JoinInjective(path, names[i], names[j]);
      }
    }
  }

  /** A walk reports what its classification reports: at most one change, at its own
      path. */
  lemma WalkReportsAtPath(tr: Trees, path: string, i1: Option<Stat>, i2: Option<Stat>)
    ensures var s := WalkStep(tr, path, i1, i2);
      s.reported == Classify(tr, path, i1, i2).reported && |s.reported| <= 1 &&
      forall i :: 0 <= i < |s.reported| ==> s.reported[i].path == path
  {
  }

  /** A walk reports at most one change, at its own path, and queues either a single
      comparison at its own path (reporting nothing) or distinct children of it. */
  lemma WalkStepShape(tr: Trees, path: string, i1: Option<Stat>, i2: Option<Stat>)
    requires WellListedTrees(tr)
    ensures var s := WalkStep(tr, path, i1, i2);
      StepShape(path, ChangePaths(s.reported), TaskPaths(s.tasks))
  {
    WalkReportsAtPath(tr, path, i1, i2);
    if IsDir(i1) || IsDir(i2) {
      DirWalkTasks(tr, path, i1, i2);
      var l := ListBoth(tr, path, IsDir(i1), IsDir(i2));
      if l.Listed? {
        var names := MergedNames(l.names1, l.names2, SameDevice(i1, i2));
        MergedNamesAreEntries(tr, path, IsDir(i1), IsDir(i2), SameDevice(i1, i2));
        ChildTasksAreChildren(tr, path, names, IsDir(i1), IsDir(i2));
      }
    } else if IsFile(i1) && IsFile(i2) {
      WalkBothFiles(tr, path, i1, i2);
    } else {
      WalkLeaf(tr, path, i1, i2);
    }
  }

  /** A comparison reports at most Modify of its own path and queues nothing. */
  lemma CompareShape(tr: Trees, t: Task)
    requires t.CompareTask? && WellFormedTask(tr, t)
    ensures StepShape(t.path, ChangePaths(CompareReport(tr, t)), TaskPaths([]))
  {
  }

  // ---------------------------------------------------------------------------
  // The whole run

  lemma PathsAppend(q: seq<Task>, cs: seq<Change>, q': seq<Task>, cs': seq<Change>)
    ensures TaskPaths(q + q') == TaskPaths(q) + TaskPaths(q')
    ensures ChangePaths(cs + cs') == ChangePaths(cs) + ChangePaths(cs')
  {
  }

  lemma PathsHead(q: seq<Task>)
    requires q != []
    ensures TaskPaths(q) == [q[0].path] + TaskPaths(q[1..])
  {
  }

  /** From a state that keeps the invariant, the run reports each path at most once. */
  lemma {:induction false} RunReportsDistinct(tr: Trees, queue: seq<Task>, reported: seq<Change>, err: Option<PathError>)
    requires WellListedTrees(tr) && WellFormed(tr, queue)
    requires Spread(ChangePaths(reported), TaskPaths(queue))
    ensures Distinct(ChangePaths(Run(tr, queue, reported, err).reported))
    decreases Potential(Bounds(tr).0, Bounds(tr).1, queue)
  {
    if queue != [] {
      var t, rest := queue[0], queue[1..];
      PathsHead(queue);
      if t.WalkTask? {
        RunWalkStep(tr, queue, reported, err);
        var s := WalkStep(tr, t.path, t.i1, t.i2);
        WalkStepShape(tr, t.path, t.i1, t.i2);
        StepSpread(ChangePaths(reported), t.path, TaskPaths(rest), ChangePaths(s.reported), TaskPaths(s.tasks));
        PathsAppend(rest, reported, s.tasks, s.reported);
        RunReportsDistinct(tr, rest + s.tasks, reported + s.reported, if s.err.Some? then s.err else err);
      } else {
        RunCompareStep(tr, queue, reported, err);
        var c := CompareReport(tr, t);
        CompareShape(tr, t);
        StepSpread(ChangePaths(reported), t.path, TaskPaths(rest), ChangePaths(c), []);
        PathsAppend(rest, reported, [], c);
        assert rest + [] == rest;
        RunReportsDistinct(tr, rest, reported + c, err);
      }
    }
  }

  /** For listings in name order whose names hold no separator, the comparison of two
      trees reports every path at most once: no two changes it returns share a path. */
  lemma DiffReportsEachPathOnce(fs1: FS, fs2: FS, root1: string, root2: string)
    requires ValidFs(fs1) && ValidFs(fs2) && WellListed(fs1) && WellListed(fs2)
    ensures var r := Diff(fs1, fs2, root1, root2).reported;
      forall i, j :: 0 <= i < j < |r| ==> r[i].path != r[j].path
  {
    var tr := TreesOf(fs1, fs2, root1, root2);
    if KickOff(tr).Kicked? {
      var st1, st2 := Lstat(fs1, "").stat, Lstat(fs2, "").stat;
      var s := WalkStep(tr, "", Some(st1), Some(st2));
      WalkStepShape(tr, "", Some(st1), Some(st2));
      StepSpread([], "", [], ChangePaths(s.reported), TaskPaths(s.tasks));
      assert [] + ChangePaths(s.reported) == ChangePaths(s.reported);
      assert [] + TaskPaths(s.tasks) == TaskPaths(s.tasks);
      if s.err.None? {
        WalkStepWellFormed(tr, "", Some(st1), Some(st2));
        RunReportsDistinct(tr, s.tasks, s.reported, None);
      }
    }
    var r := Diff(fs1, fs2, root1, root2).reported;
    assert ChangePaths(r) == seq(|r|, k requires 0 <= k < |r| => r[k].path);
  }

  // ---------------------------------------------------------------------------
  // The root is never reported

  /** A walk of a path other than the root, or of the root pair of directories, reports
      and queues only non-empty paths. */
  lemma WalkStepPathsNonEmpty(tr: Trees, path: string, i1: Option<Stat>, i2: Option<Stat>)
    requires ValidTrees(tr) && (path != "" || (IsDir(i1) && IsDir(i2)))
    ensures var s := WalkStep(tr, path, i1, i2);
      (forall k :: 0 <= k < |s.reported| ==> s.reported[k].path != "") &&
      forall k :: 0 <= k < |s.tasks| ==> s.tasks[k].path != ""
  {
    WalkReportsAtPath(tr, path, i1, i2);
    if IsDir(i1) || IsDir(i2) {
      DirWalkTasks(tr, path, i1, i2);
      var l := ListBoth(tr, path, IsDir(i1), IsDir(i2));
      if l.Listed? {
        ListedNamesNonEmpty(tr, path, IsDir(i1), IsDir(i2), SameDevice(i1, i2));
      }
    } else {
      WalkLeaf(tr, path, i1, i2);
    }
  }

  /** From pending and reported paths that are all non-empty, the run reports only
      non-empty paths. */
  lemma {:induction false} RunPathsNonEmpty(tr: Trees, queue: seq<Task>, reported: seq<Change>, err: Option<PathError>)
    requires ValidTrees(tr) && WellFormed(tr, queue)
    requires forall k :: 0 <= k < |queue| ==> queue[k].path != ""
    requires forall k :: 0 <= k < |reported| ==> reported[k].path != ""
    ensures var r := Run(tr, queue, reported, err).reported;
      forall k :: 0 <= k < |r| ==> r[k].path != ""
    decreases Potential(Bounds(tr).0, Bounds(tr).1, queue)
  {
    if queue != [] {
      var t, rest := queue[0], queue[1..];
      if t.WalkTask? {
        RunWalkStep(tr, queue, reported, err);
        var s := WalkStep(tr, t.path, t.i1, t.i2);
        WalkStepPathsNonEmpty(tr, t.path, t.i1, t.i2);
        RunPathsNonEmpty(tr, rest + s.tasks, reported + s.reported, if s.err.Some? then s.err else err);
      } else {
        RunCompareStep(tr, queue, reported, err);
        RunPathsNonEmpty(tr, rest, reported + CompareReport(tr, t), err);
      }
    }
  }

  /** The root is never printed: the roots lstat as directories, so the root walk
      reports nothing, and every later change is at a path below it. */
  lemma DiffNeverReportsRoot(fs1: FS, fs2: FS, root1: string, root2: string)
    requires ValidFs(fs1) && ValidFs(fs2)
    ensures var r := Diff(fs1, fs2, root1, root2).reported;
      forall k :: 0 <= k < |r| ==> r[k].path != ""
  {
    var tr := TreesOf(fs1, fs2, root1, root2);
    if KickOff(tr).Kicked? {
      var st1, st2 := Lstat(fs1, "").stat, Lstat(fs2, "").stat;
      var s := WalkStep(tr, "", Some(st1), Some(st2));
      assert KickOff(tr).step == s;
      WalkStepPathsNonEmpty(tr, "", Some(st1), Some(st2));
      if s.err.None? {
        WalkStepWellFormed(tr, "", Some(st1), Some(st2));
        RunPathsNonEmpty(tr, s.tasks, s.reported, None);
        assert Diff(fs1, fs2, root1, root2) == Run(tr, s.tasks, s.reported, None);
      } else {
        assert Diff(fs1, fs2, root1, root2) == Outcome(s.reported, s.err);
      }
    }
  }
}
