/** End-to-end comparisons of small concrete trees, and the per-path facts they rest on. */
module Scenarios {
  import opened Base
  import opened Fs
  import opened FsErrors
  import opened ChangeRecords
  import opened ContentCompare
  import opened Walker
  import opened Treediff

  function DirStat(ino: int): Stat {
    Stat(true, false, 0x41ED, 1000, 1000, 0, 4096, 1, ino, 0, 0, 0)
  }

  function FileStat(size: int, ino: int, mtime: int): Stat {
    Stat(false, false, 0x81A4, 1000, 1000, 0, size, 1, ino, mtime, mtime, mtime)
  }

  function Dir(ino: int, entries: seq<NameIno>): Node {
    Entry(DirStat(ino), Names(entries), Content(true, None, None))
  }

  /** A regular file: it opens and maps to its bytes; it is no directory and no link. */
  function File(bytes: seq<byte>, ino: int, mtime: int): Node {
    Entry(FileStat(|bytes|, ino, mtime), ListFailed(20), Content(true, Some(bytes), None))
  }

  /** A symbolic link with mode S_IFLNK | 0777: lstat reports the length of its target as
      its size, and open follows it to a file that does not map here. */
  function Link(target: string, ino: int): Node {
    Entry(Stat(false, true, 0xA1FF, 1000, 1000, 0, |target|, 1, ino, 0, 0, 0), ListFailed(20),
          Content(true, None, Some(target)))
  }

  /** The scenario records are records lstat can produce: a directory with mode
      S_IFDIR | 0755 and a regular file with mode S_IFREG | 0644. */
  lemma ScenarioStatsValid(ino: int, size: int, mtime: int)
    ensures ValidStat(DirStat(ino)) && ValidStat(FileStat(size, ino, mtime))
  {
    assert TypeBits(0x41ED) == S_IFDIR && TypeBits(0x81A4) == S_IFREG;
  }

  lemma LinkStatValid(target: string, ino: int)
    ensures Link(target, ino).Entry? && ValidStat(Link(target, ino).stat)
  {
    assert TypeBits(0xA1FF) == S_IFLNK;
  }

  const Hello: seq<byte> := [104, 101, 108, 108, 111]
  const World: seq<byte> := [119, 111, 114, 108, 100]

  /** The run of a single walk request that queues nothing: what that walk reports and
      returns. */
  lemma RunSingleWalk(tr: Trees, t: Task)
    requires ValidTrees(tr) && t.WalkTask? && WellFormedTask(tr, t)
    requires WalkStep(tr, t.path, t.i1, t.i2).tasks == []
    ensures WellFormed(tr, [t])
    ensures var s := WalkStep(tr, t.path, t.i1, t.i2);
      Run(tr, [t], [], None) == Outcome(s.reported, s.err)
  {
    RunWalkStep(tr, [t], [], None);
    assert [t][1..] + [] == [];
  }

  /** The root walk of two trees whose roots list one name, on one side only: one walk
      request for that name, with nothing on the other side. */
  lemma OneSidedRoot(tr: Trees, x: string, ino: int, first: bool) returns (child: Task)
    requires x != ""
    requires var (a, b) := if first then (tr.fs1, tr.fs2) else (tr.fs2, tr.fs1);
      "" in a && a[""] == Dir(1, [NameIno(x, ino)]) && x in a && a[x].Entry? &&
      "" in b && b[""] == Dir(1, []) && x !in b
    ensures first ==> child == WalkTask(x, Some(tr.fs1[x].stat), None)
    ensures !first ==> child == WalkTask(x, None, Some(tr.fs2[x].stat))
    ensures WalkStep(tr, "", Some(DirStat(1)), Some(DirStat(1))) == StepResult([], [child], None)
  {
    child := WalkTask(x, if first then Some(tr.fs1[x].stat) else None, if first then None else Some(tr.fs2[x].stat));
    if first {
      assert MergedNames([NameIno(x, ino)], [], true) == [x];
    } else {
      assert MergedNames([], [NameIno(x, ino)], true) == [x];
    }
    assert ChildTasks(tr, "", [x], true, true) == Spawned([child], None) by {
      assert [x][..0] == [];
    }
  }

  /** An empty root, and a root holding the file x = "hello". */
  const EmptyRoot: FS := map["" := Dir(1, [])]
  const HelloRoot: FS := map["" := Dir(1, [NameIno("x", 2)]), "x" := File(Hello, 2, 0)]

  lemma EmptyAndHelloValid()
    ensures ValidFs(EmptyRoot) && ValidFs(HelloRoot)
  {
    ScenarioStatsValid(1, 5, 0);
    ScenarioStatsValid(2, 5, 0);
  }

  /** x = "hello" against an empty root: exactly one Delete of x, and no error. */
  lemma OnlyInFirst()
    ensures ValidFs(HelloRoot) && ValidFs(EmptyRoot)
    ensures Diff(HelloRoot, EmptyRoot, "a", "b") == Outcome([Change(ChangeDelete, "x")], None)
  {
    EmptyAndHelloValid();
    var fs1, fs2 := HelloRoot, EmptyRoot;
    var tr := TreesOf(fs1, fs2, "a", "b");
    var child := OneSidedRoot(tr, "x", 2, true);
    WalkOneSidedFile(tr, "x", child.i1, child.i2);
    WalkLeaf(tr, "x", child.i1, child.i2);
    RunSingleWalk(tr, child);
  }

  /** An empty root against x = "hello": exactly one Add of x, and no error. */
  lemma OnlyInSecond()
    ensures ValidFs(EmptyRoot) && ValidFs(HelloRoot)
    ensures Diff(EmptyRoot, HelloRoot, "a", "b") == Outcome([Change(ChangeAdd, "x")], None)
  {
    EmptyAndHelloValid();
    var fs1, fs2 := EmptyRoot, HelloRoot;
    var tr := TreesOf(fs1, fs2, "a", "b");
    var child := OneSidedRoot(tr, "x", 2, false);
    WalkOneSidedFile(tr, "x", child.i1, child.i2);
    WalkLeaf(tr, "x", child.i1, child.i2);
    RunSingleWalk(tr, child);
  }

  /** The root walk of two trees whose roots list one name each, the same name on
      different inodes: one walk request for that name, with both lstat records. */
  lemma SingleChildRoot(tr: Trees, x: string, ino1: int, ino2: int) returns (child: Task)
    requires ino1 != ino2 && x != ""
    requires "" in tr.fs1 && tr.fs1[""] == Dir(1, [NameIno(x, ino1)]) && x in tr.fs1 && tr.fs1[x].Entry?
    requires "" in tr.fs2 && tr.fs2[""] == Dir(1, [NameIno(x, ino2)]) && x in tr.fs2 && tr.fs2[x].Entry?
    ensures child == WalkTask(x, Some(tr.fs1[x].stat), Some(tr.fs2[x].stat))
    ensures WalkStep(tr, "", Some(DirStat(1)), Some(DirStat(1))) == StepResult([], [child], None)
  {
    child := WalkTask(x, Some(tr.fs1[x].stat), Some(tr.fs2[x].stat));
    assert MergedNames([NameIno(x, ino1)], [NameIno(x, ino2)], true) == [x];
    assert ChildTasks(tr, "", [x], true, true) == Spawned([child], None) by {
      assert [x][..0] == [];
    }
  }

  /** The run of a walk of two files with equal metadata: one content comparison, whose
      report is the run's output. */
  lemma RunComparedFiles(tr: Trees, x: string)
    requires ValidTrees(tr)
    requires x in tr.fs1 && tr.fs1[x].Entry? && !tr.fs1[x].stat.isDir
    requires x in tr.fs2 && tr.fs2[x].Entry? && !tr.fs2[x].stat.isDir
    requires !StatDifferent(tr.fs1[x].stat, tr.fs2[x].stat)
    ensures var t := WalkTask(x, Some(tr.fs1[x].stat), Some(tr.fs2[x].stat));
      var cmp := CompareTask(x, tr.dir1 + x, tr.dir2 + x, tr.fs1[x].stat.size);
      WellFormed(tr, [t]) && WellFormedTask(tr, cmp) &&
      Run(tr, [t], [], None) == Outcome(CompareReport(tr, cmp), None)
  {
    var t := WalkTask(x, Some(tr.fs1[x].stat), Some(tr.fs2[x].stat));
    var cmp := CompareTask(x, tr.dir1 + x, tr.dir2 + x, tr.fs1[x].stat.size);
    WalkBothFiles(tr, x, t.i1, t.i2);
    RunWalkStep(tr, [t], [], None);
    assert [t][1..] + [cmp] == [cmp];
    RunCompareStep(tr, [cmp], [], None);
    assert [cmp][1..] == [];
  }

  /** x with other metadata but the same bytes, x with other bytes of the same length,
      x as a symlink to "hello", and x as another name for the inode of HelloRoot's x. */
  const HelloLater: FS := map["" := Dir(1, [NameIno("x", 3)]), "x" := File(Hello, 3, 77)]
  const WorldRoot: FS := map["" := Dir(1, [NameIno("x", 3)]), "x" := File(World, 3, 0)]
  const LinkRoot: FS := map["" := Dir(1, [NameIno("x", 3)]), "x" := Link("hello", 3)]
  const WorldSameInode: FS := map["" := Dir(1, [NameIno("x", 2)]), "x" := File(World, 2, 0)]

  lemma HelloLaterValid()
    ensures ValidFs(HelloLater)
  {
    ScenarioStatsValid(1, 5, 77);
    ScenarioStatsValid(3, 5, 77);
  }

  lemma WorldRootValid()
    ensures ValidFs(WorldRoot)
  {
    ScenarioStatsValid(1, 5, 0);
    ScenarioStatsValid(3, 5, 0);
  }

  lemma LinkRootValid()
    ensures ValidFs(LinkRoot)
  {
    ScenarioStatsValid(1, 5, 0);
    LinkStatValid("hello", 3);
  }

  lemma WorldSameInodeValid()
    ensures ValidFs(WorldSameInode)
  {
    ScenarioStatsValid(1, 5, 0);
    ScenarioStatsValid(2, 5, 0);
  }

  /** x on both sides with the same bytes but another inode and mtime: nothing is
      reported and no error. */
  lemma SameContents()
    ensures ValidFs(HelloRoot) && ValidFs(HelloLater)
    ensures Diff(HelloRoot, HelloLater, "a", "b") == Outcome([], None)
  {
    EmptyAndHelloValid();
    HelloLaterValid();
    var fs1, fs2 := HelloRoot, HelloLater;
    var tr := TreesOf(fs1, fs2, "a", "b");
    var child := SingleChildRoot(tr, "x", 2, 3);
    RunComparedFiles(tr, "x");
    assert CompareResult(ProbeOf(fs1, "x"), ProbeOf(fs2, "x"), 5) == 0;
  }

  /** x on both sides with the same metadata but other bytes of the same length: the
      comparison reports exactly one Modify of x. */
  lemma OtherContents()
    ensures ValidFs(HelloRoot) && ValidFs(WorldRoot)
    ensures Diff(HelloRoot, WorldRoot, "a", "b") == Outcome([Change(ChangeModify, "x")], None)
  {
    EmptyAndHelloValid();
    WorldRootValid();
    var fs1, fs2 := HelloRoot, WorldRoot;
    var tr := TreesOf(fs1, fs2, "a", "b");
    var child := SingleChildRoot(tr, "x", 2, 3);
    RunComparedFiles(tr, "x");
    assert CompareResult(ProbeOf(fs1, "x"), ProbeOf(fs2, "x"), 5) != 0 by {
      assert Hello != World;
    }
  }

  /** x is a symlink in the first tree and a regular file in the second: the file types
      differ, so x is modified without any comparison of contents. */
  lemma LinkAgainstFile()
    ensures ValidFs(LinkRoot) && ValidFs(HelloRoot)
    ensures WalkStep(TreesOf(LinkRoot, HelloRoot, "a", "b"), "x", Some(LinkRoot["x"].stat), Some(HelloRoot["x"].stat))
            == StepResult([Change(ChangeModify, "x")], [], None)
    ensures Diff(LinkRoot, HelloRoot, "a", "b") == Outcome([Change(ChangeModify, "x")], None)
  {
    EmptyAndHelloValid();
    LinkRootValid();
    var tr := TreesOf(LinkRoot, HelloRoot, "a", "b");
    var child := SingleChildRoot(tr, "x", 3, 2);
    WalkSymlinkAgainstFile(tr, "x", child.i1, child.i2);
    RunSingleWalk(tr, child);
  }

  /** The same inode on the same device on both sides: the merge drops the name, so x
      is neither walked nor compared, and nothing is reported. */
  lemma HardLinkSkipped()
    ensures ValidFs(HelloRoot) && ValidFs(WorldSameInode)
    ensures Diff(HelloRoot, WorldSameInode, "a", "b") == Outcome([], None)
  {
    EmptyAndHelloValid();
    WorldSameInodeValid();
    var tr := TreesOf(HelloRoot, WorldSameInode, "a", "b");
    assert MergedNames([NameIno("x", 2)], [NameIno("x", 2)], true) == [];
    assert WalkStep(tr, "", Some(DirStat(1)), Some(DirStat(1))) == StepResult([], [], None);
  }

  /** d/x = "v" against d/x = "v2", with d a directory on both sides. */
  const NestedV: FS := map["" := Dir(1, [NameIno("d", 2)]), "d" := Dir(2, [NameIno("x", 3)]), "d/x" := File([118], 3, 0)]
  const NestedV2: FS := map["" := Dir(1, [NameIno("d", 4)]), "d" := Dir(4, [NameIno("x", 5)]), "d/x" := File([118, 50], 5, 0)]

  lemma NestedTreesValid()
    ensures ValidFs(NestedV) && ValidFs(NestedV2)
  {
    ScenarioStatsValid(1, 1, 0);
    ScenarioStatsValid(2, 1, 0);
    ScenarioStatsValid(3, 1, 0);
    ScenarioStatsValid(4, 2, 0);
    ScenarioStatsValid(5, 2, 0);
  }

  /** The nested trees: d itself is a directory on both sides and is not reported; d/x
      differs in size and is reported Modify without a comparison. */
  lemma NestedModify()
    ensures ValidFs(NestedV) && ValidFs(NestedV2)
    ensures Diff(NestedV, NestedV2, "a", "b") == Outcome([Change(ChangeModify, "d/x")], None)
  {
    NestedTreesValid();
    var tr := TreesOf(NestedV, NestedV2, "a", "b");
    var d := SingleChildRoot(tr, "d", 2, 4);
    NestedRun(tr);
  }

  /** The run after the root walk in the nested scenario: d is walked and queues d/x,
      whose walk reports the Modify. */
  lemma NestedRun(tr: Trees)
    requires ValidTrees(tr)
    requires "d" in tr.fs1 && tr.fs1["d"] == Dir(2, [NameIno("x", 3)]) && "d/x" in tr.fs1 && tr.fs1["d/x"] == File([118], 3, 0)
    requires "d" in tr.fs2 && tr.fs2["d"] == Dir(4, [NameIno("x", 5)]) && "d/x" in tr.fs2 && tr.fs2["d/x"] == File([118, 50], 5, 0)
    ensures WellFormed(tr, [WalkTask("d", Some(DirStat(2)), Some(DirStat(4)))])
    ensures Run(tr, [WalkTask("d", Some(DirStat(2)), Some(DirStat(4)))], [], None) == Outcome([Change(ChangeModify, "d/x")], None)
  {
    var d := WalkTask("d", Some(DirStat(2)), Some(DirStat(4)));
    var x := NestedChild(tr);
    RunWalkStep(tr, [d], [], None);
    assert [d][1..] + [x] == [x];
    RunWalkStep(tr, [x], [], None);
    WalkBothFiles(tr, "d/x", x.i1, x.i2);
    assert [x][1..] + [] == [];
  }

  /** The walk of d in the nested scenario: one walk request for d/x. */
  lemma NestedChild(tr: Trees) returns (x: Task)
    requires "d" in tr.fs1 && tr.fs1["d"] == Dir(2, [NameIno("x", 3)]) && "d/x" in tr.fs1 && tr.fs1["d/x"].Entry?
    requires "d" in tr.fs2 && tr.fs2["d"] == Dir(4, [NameIno("x", 5)]) && "d/x" in tr.fs2 && tr.fs2["d/x"].Entry?
    ensures x == WalkTask("d/x", Some(tr.fs1["d/x"].stat), Some(tr.fs2["d/x"].stat))
    ensures WalkStep(tr, "d", Some(DirStat(2)), Some(DirStat(4))) == StepResult([], [x], None)
  {
    x := WalkTask("d/x", Some(tr.fs1["d/x"].stat), Some(tr.fs2["d/x"].stat));
    assert MergedNames([NameIno("x", 3)], [NameIno("x", 5)], true) == ["x"];
    assert Join("d", "x") == "d/x";
    assert ChildTasks(tr, "d", ["x"], true, true) == Spawned([x], None) by {
      assert ["x"][..0] == [];
    }
  }
}
