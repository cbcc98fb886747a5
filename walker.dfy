/** The tree walker: classification of one path, the merge of two sorted directory
    listings, and the scheduling of child walks and content comparisons. */
module Walker {
  import opened Base
  import opened Order
  import opened Fs
  import opened FsErrors
  import opened ChangeRecords

  /** A pending unit of work: a walk request (walkRequest) or a content comparison
      (compareContentsRequest). Both travel through one sequential worklist here. */
  datatype Task =
    | WalkTask(path: string, i1: Option<Stat>, i2: Option<Stat>)
    | CompareTask(path: string, p1: string, p2: string, size: int)

  /** The two trees and the root prefixes, each ending in '/', they are reached under. */
  datatype Trees = Trees(fs1: FS, fs2: FS, dir1: string, dir2: string)

  /** statDifferent: the metadata that proves two files differ without reading them. */
  predicate StatDifferent(o: Stat, n: Stat) {
    o.mode != n.mode || o.uid != n.uid || o.gid != n.gid || o.rdev != n.rdev || o.size != n.size
  }

  /** Only mode, owner, group, special device and size matter; timestamps, the device
      and the inode do not, and the order of the two records does not. */
  lemma StatDifferentIgnoresOtherFields(o: Stat, n: Stat, o': Stat, n': Stat)
    requires o'.mode == o.mode && o'.uid == o.uid && o'.gid == o.gid && o'.rdev == o.rdev && o'.size == o.size
    requires n'.mode == n.mode && n'.uid == n.uid && n'.gid == n.gid && n'.rdev == n.rdev && n'.size == n.size
    ensures StatDifferent(o', n') == StatDifferent(o, n) == StatDifferent(n, o)
  {
  }

  /** sameDevice: both records are present and name the same device. */
  predicate SameDevice(i1: Option<Stat>, i2: Option<Stat>) {
    i1.Some? && i2.Some? && i1.value.dev == i2.value.dev
  }

  predicate IsDir(i: Option<Stat>) {
    i.Some? && i.value.isDir
  }

  /** A present non-directory: a regular file, a symlink or a special file. */
  predicate IsFile(i: Option<Stat>) {
    i.Some? && !i.value.isDir
  }

  // ---------------------------------------------------------------------------
  // The merge of two listings

  function NamesOf(l: seq<NameIno>): (r: seq<string>)
    ensures |r| == |l|
    ensures forall i :: 0 <= i < |l| ==> r[i] == l[i].name
  {
    seq(|l|, i requires 0 <= i < |l| => l[i].name)
  }

  /** A listing in strictly increasing name order, as readdirnames delivers it. */
  predicate Sorted(l: seq<NameIno>) {
    forall i, j :: 0 <= i < j < |l| ==> StrLess(l[i].name, l[j].name)
  }

  predicate StrictlyIncreasing(s: seq<string>) {
    forall i, j :: 0 <= i < j < |s| ==> StrLess(s[i], s[j])
  }

  /** The names the merge of two listings yields, in order: a name on one side only is
      kept, a name on both sides is kept once unless both entries are the same inode on
      the same device. */
  function MergedNames(l1: seq<NameIno>, l2: seq<NameIno>, sameDevice: bool): (r: seq<string>)
    ensures |r| <= |l1| + |l2|
    decreases |l1| + |l2|
  {
    if l1 == [] then NamesOf(l2)
    else if l2 == [] then NamesOf(l1)
    else
      var c := StrCompare(l1[0].name, l2[0].name);
      if c < 0 then [l1[0].name] + MergedNames(l1[1..], l2, sameDevice)
      else if c == 0 then
        (if l1[0].ino != l2[0].ino || !sameDevice then [l1[0].name] else []) + MergedNames(l1[1..], l2[1..], sameDevice)
      else [l2[0].name] + MergedNames(l1, l2[1..], sameDevice)
  }

  /** Every merged name comes from one of the two listings. */
  lemma {:induction false} MergedFromListings(l1: seq<NameIno>, l2: seq<NameIno>, sameDevice: bool)
    ensures forall x :: x in MergedNames(l1, l2, sameDevice) ==> x in NamesOf(l1) || x in NamesOf(l2)
    decreases |l1| + |l2|
  {
    if l1 != [] && l2 != [] {
      assert NamesOf(l1) == [l1[0].name] + NamesOf(l1[1..]);
      assert NamesOf(l2) == [l2[0].name] + NamesOf(l2[1..]);
      var c := StrCompare(l1[0].name, l2[0].name);
      if c < 0 {
        MergedFromListings(l1[1..], l2, sameDevice);
      } else if c == 0 {
        MergedFromListings(l1[1..], l2[1..], sameDevice);
      } else {
        MergedFromListings(l1, l2[1..], sameDevice);
      }
    }
  }

  /** One pass of the two-pointer loop when the first listing's name is smaller: that
      name is produced and the first pointer advances. */
  lemma AdvanceFirst(l1: seq<NameIno>, l2: seq<NameIno>, sameDevice: bool, ix1: nat, ix2: nat,
                     names: seq<string>, full: seq<string>)
    requires ix1 < |l1| && ix2 < |l2| && StrCompare(l1[ix1].name, l2[ix2].name) < 0
    requires names + MergedNames(l1[ix1..], l2[ix2..], sameDevice) == full
    ensures (names + [l1[ix1].name]) + MergedNames(l1[ix1 + 1..], l2[ix2..], sameDevice) == full
  {
    assert l1[ix1..][1..] == l1[ix1 + 1..];
    var rest := MergedNames(l1[ix1 + 1..], l2[ix2..], sameDevice);
    assert names + ([l1[ix1].name] + rest) == (names + [l1[ix1].name]) + rest;
  }

  /** One pass when both listings hold the same name: it is produced unless both entries
      are the same inode on the same device, and both pointers advance. */
  lemma AdvanceBoth(l1: seq<NameIno>, l2: seq<NameIno>, sameDevice: bool, ix1: nat, ix2: nat,
                    names: seq<string>, full: seq<string>)
    requires ix1 < |l1| && ix2 < |l2| && StrCompare(l1[ix1].name, l2[ix2].name) == 0
    requires names + MergedNames(l1[ix1..], l2[ix2..], sameDevice) == full
    ensures l1[ix1].ino != l2[ix2].ino || !sameDevice ==>
      (names + [l1[ix1].name]) + MergedNames(l1[ix1 + 1..], l2[ix2 + 1..], sameDevice) == full
    ensures l1[ix1].ino == l2[ix2].ino && sameDevice ==>
      names + MergedNames(l1[ix1 + 1..], l2[ix2 + 1..], sameDevice) == full
  {
    assert l1[ix1..][1..] == l1[ix1 + 1..] && l2[ix2..][1..] == l2[ix2 + 1..];
    var rest := MergedNames(l1[ix1 + 1..], l2[ix2 + 1..], sameDevice);
    assert names + ([l1[ix1].name] + rest) == (names + [l1[ix1].name]) + rest;
  }

  /** One pass when the second listing's name is smaller. */
  lemma AdvanceSecond(l1: seq<NameIno>, l2: seq<NameIno>, sameDevice: bool, ix1: nat, ix2: nat,
                      names: seq<string>, full: seq<string>)
    requires ix1 < |l1| && ix2 < |l2| && StrCompare(l1[ix1].name, l2[ix2].name) > 0
    requires names + MergedNames(l1[ix1..], l2[ix2..], sameDevice) == full
    ensures (names + [l2[ix2].name]) + MergedNames(l1[ix1..], l2[ix2 + 1..], sameDevice) == full
  {
    assert l2[ix2..][1..] == l2[ix2 + 1..];
    var rest := MergedNames(l1[ix1..], l2[ix2 + 1..], sameDevice);
    assert names + ([l2[ix2].name] + rest) == (names + [l2[ix2].name]) + rest;
  }

  /** One of the two loops that follow the two-pointer pass: append the names a listing
      still has from index ix on. */
  method AppendRest(names: seq<string>, l: seq<NameIno>, ix: nat) returns (r: seq<string>)
    requires ix <= |l|
    ensures r == names + NamesOf(l[ix..])
  {
    r := names;
    var i := ix;
    while i < |l|
      invariant ix <= i <= |l|
      invariant r == names + NamesOf(l[ix..i])
    {
      assert NamesOf(l[ix..i + 1]) == NamesOf(l[ix..i]) + [l[i].name];
      r := r + [l[i].name];
      i := i + 1;
    }
    assert l[ix..i] == l[ix..];
  }

  /** The two-pointer pass of walk's merge loop, run while both listings have entries
      left; it stops with one listing exhausted and the merge of whatever remains still
      to be produced. */
  method TwoPointerPass(names1: seq<NameIno>, names2: seq<NameIno>, sameDevice: bool)
    returns (names: seq<string>, ix1: nat, ix2: nat)
    ensures ix1 <= |names1| && ix2 <= |names2| && (ix1 == |names1| || ix2 == |names2|)
    ensures names + MergedNames(names1[ix1..], names2[ix2..], sameDevice) == MergedNames(names1, names2, sameDevice)
  {
    ghost var full := MergedNames(names1, names2, sameDevice);
    names := [];
    ix1, ix2 := 0, 0;
    assert names1[0..] == names1 && names2[0..] == names2;
    while ix1 < |names1| && ix2 < |names2|
      invariant ix1 <= |names1| && ix2 <= |names2|
      invariant names + MergedNames(names1[ix1..], names2[ix2..], sameDevice) == full
      decreases |names1| - ix1 + |names2| - ix2
    {
      var ni1, ni2 := names1[ix1], names2[ix2];
      var c := StrCompare(ni1.name, ni2.name);
      if c == -1 {
        AdvanceFirst(names1, names2, sameDevice, ix1, ix2, names, full);
        names := names + [ni1.name];
        ix1 := ix1 + 1;
      } else if c == 0 {
        AdvanceBoth(names1, names2, sameDevice, ix1, ix2, names, full);
        if ni1.ino != ni2.ino || !sameDevice {
          names := names + [ni1.name];
        }
        ix1, ix2 := ix1 + 1, ix2 + 1;
      } else {
        AdvanceSecond(names1, names2, sameDevice, ix1, ix2, names, full);
        names := names + [ni2.name];
        ix2 := ix2 + 1;
      }
    }
  }

  /** The merge loop of walk: the two-pointer pass, then the rest of whichever listing
      remains. */
  method MergeNames(names1: seq<NameIno>, names2: seq<NameIno>, sameDevice: bool) returns (names: seq<string>)
    ensures names == MergedNames(names1, names2, sameDevice)
    ensures |names| <= |names1| + |names2|
    ensures Sorted(names1) && Sorted(names2) ==> StrictlyIncreasing(names)
  {
    var ix1, ix2;
    names, ix1, ix2 := TwoPointerPass(names1, names2, sameDevice);
    MergedWithEmpty(names1[ix1..], sameDevice);
    MergedWithEmpty(names2[ix2..], sameDevice);
    assert names1[ix1..] == [] || names2[ix2..] == [];
    names := AppendRest(names, names1, ix1);
    names := AppendRest(names, names2, ix2);
    if Sorted(names1) && Sorted(names2) {
      MergedStrictlyIncreasing(names1, names2, sameDevice);
    }
  }

  lemma SortedTail(l: seq<NameIno>)
    requires Sorted(l) && l != []
    ensures Sorted(l[1..])
    ensures forall x :: x in NamesOf(l[1..]) ==> StrLess(l[0].name, x)
  {
    forall x | x in NamesOf(l[1..])
      ensures StrLess(l[0].name, x)
    {
      var i :| 0 <= i < |l[1..]| && NamesOf(l[1..])[i] == x;
      assert l[1..][i] == l[i + 1];
    }
  }

  lemma ConsIncreasing(head: string, rest: seq<string>)
    requires StrictlyIncreasing(rest)
    requires forall x :: x in rest ==> StrLess(head, x)
    ensures StrictlyIncreasing([head] + rest)
  {
    var r := [head] + rest;
    forall i, j | 0 <= i < j < |r| ensures StrLess(r[i], r[j]) {
      assert r[j] == rest[j - 1];
      if i > 0 {
        assert r[i] == rest[i - 1];
      }
    }
  }

  /** Strictly increasing listings merge into a strictly increasing sequence, so no name
      is produced twice. */
  lemma {:induction false} MergedStrictlyIncreasing(l1: seq<NameIno>, l2: seq<NameIno>, sameDevice: bool)
    requires Sorted(l1) && Sorted(l2)
    ensures StrictlyIncreasing(MergedNames(l1, l2, sameDevice))
    decreases |l1| + |l2|
  {
    if l1 == [] || l2 == [] {
      return;
    }
    var a, b := l1[0].name, l2[0].name;
    var c := StrCompare(a, b);
    SortedTail(l1);
    SortedTail(l2);
    if c < 0 {
      var rest := MergedNames(l1[1..], l2, sameDevice);
      MergedFromListings(l1[1..], l2, sameDevice);
      MergedStrictlyIncreasing(l1[1..], l2, sameDevice);
      forall x | x in rest ensures StrLess(a, x) {
        if x in NamesOf(l2) && x !in NamesOf(l1[1..]) {
          var j :| 0 <= j < |l2| && l2[j].name == x;
          if j > 0 { StrLessTransitive(a, b, x); }
        }
      }
      ConsIncreasing(a, rest);
    } else if c == 0 {
      var rest := MergedNames(l1[1..], l2[1..], sameDevice);
      MergedFromListings(l1[1..], l2[1..], sameDevice);
      MergedStrictlyIncreasing(l1[1..], l2[1..], sameDevice);
      ConsIncreasing(a, rest);
    } else {
      StrCompareAntisymmetric(a, b);
      var rest := MergedNames(l1, l2[1..], sameDevice);
      MergedFromListings(l1, l2[1..], sameDevice);
      MergedStrictlyIncreasing(l1, l2[1..], sameDevice);
      forall x | x in rest ensures StrLess(b, x) {
        if x in NamesOf(l1) && x !in NamesOf(l2[1..]) {
          var i :| 0 <= i < |l1| && l1[i].name == x;
          if i > 0 { StrLessTransitive(b, a, x); }
        }
      }
      ConsIncreasing(b, rest);
    }
  }

  /** A name in exactly one listing is always merged, wherever it stands, including among
      the entries left over once the other listing runs out. */
  lemma {:induction false} MergedKeepsOneSided(l1: seq<NameIno>, l2: seq<NameIno>, sameDevice: bool, x: string)
    requires (x in NamesOf(l1) && x !in NamesOf(l2)) || (x !in NamesOf(l1) && x in NamesOf(l2))
    ensures x in MergedNames(l1, l2, sameDevice)
    decreases |l1| + |l2|
  {
    if l1 == [] || l2 == [] {
      return;
    }
    assert NamesOf(l1) == [l1[0].name] + NamesOf(l1[1..]);
    assert NamesOf(l2) == [l2[0].name] + NamesOf(l2[1..]);
    var c := StrCompare(l1[0].name, l2[0].name);
    if c < 0 {
      if x != l1[0].name { MergedKeepsOneSided(l1[1..], l2, sameDevice, x); }
    } else if c == 0 {
      MergedKeepsOneSided(l1[1..], l2[1..], sameDevice, x);
    } else {
      if x != l2[0].name { MergedKeepsOneSided(l1, l2[1..], sameDevice, x); }
    }
  }

  /** In a sorted listing a name occurs at one index only. */
  lemma SortedUniqueIndex(l: seq<NameIno>, i: nat, j: nat)
    requires Sorted(l) && i < |l| && j < |l| && l[i].name == l[j].name
    ensures i == j
  {
  }

  /** A name in both sorted listings is dropped exactly when the two entries are the same
      inode on the same device. */
  lemma {:induction false} MergedShared(l1: seq<NameIno>, l2: seq<NameIno>, sameDevice: bool, i: nat, j: nat)
    requires Sorted(l1) && Sorted(l2)
    requires i < |l1| && j < |l2| && l1[i].name == l2[j].name
    ensures l1[i].name in MergedNames(l1, l2, sameDevice) <==> (l1[i].ino != l2[j].ino || !sameDevice)
    decreases |l1| + |l2|
  {
    var x := l1[i].name;
    var a, b := l1[0].name, l2[0].name;
    var c := StrCompare(a, b);
    SortedTail(l1);
    SortedTail(l2);
    if c < 0 {
      if j > 0 {
        assert l2[1..][j - 1] == l2[j];
        StrLessTransitive(a, b, x);
      }
      assert StrLess(a, x) && x != a;
      assert i > 0;
      assert l1[1..][i - 1] == l1[i];
      MergedShared(l1[1..], l2, sameDevice, i - 1, j);
    } else if c == 0 {
      if i == 0 { SortedUniqueIndex(l2, 0, j); }
      if j == 0 { SortedUniqueIndex(l1, 0, i); }
      if i == 0 {
        MergedFromListings(l1[1..], l2[1..], sameDevice);
        assert x !in MergedNames(l1[1..], l2[1..], sameDevice);
      } else {
        assert l1[1..][i - 1] == l1[i] && l2[1..][j - 1] == l2[j];
        MergedShared(l1[1..], l2[1..], sameDevice, i - 1, j - 1);
      }
    } else {
      StrCompareAntisymmetric(a, b);
      if i > 0 {
        assert l1[1..][i - 1] == l1[i];
        StrLessTransitive(b, a, x);
      }
      assert StrLess(b, x) && x != b;
      assert j > 0;
      assert l2[1..][j - 1] == l2[j];
      MergedShared(l1, l2[1..], sameDevice, i, j - 1);
    }
  }

  /** Merging with an empty listing yields the other listing's names in order. */
  lemma MergedWithEmpty(l: seq<NameIno>, sameDevice: bool)
    ensures MergedNames(l, [], sameDevice) == NamesOf(l)
    ensures MergedNames([], l, sameDevice) == NamesOf(l)
  {
  }

  /** The merge does not depend on which listing comes first. */
  lemma {:induction false} MergedSymmetric(l1: seq<NameIno>, l2: seq<NameIno>, sameDevice: bool)
    ensures MergedNames(l2, l1, sameDevice) == MergedNames(l1, l2, sameDevice)
    decreases |l1| + |l2|
  {
    if l1 == [] || l2 == [] {
      return;
    }
    var c := StrCompare(l1[0].name, l2[0].name);
    StrCompareAntisymmetric(l1[0].name, l2[0].name);
    if c < 0 {
      MergedSymmetric(l1[1..], l2, sameDevice);
    } else if c == 0 {
      MergedSymmetric(l1[1..], l2[1..], sameDevice);
    } else {
      MergedSymmetric(l1, l2[1..], sameDevice);
    }
  }

  // ---------------------------------------------------------------------------
  // One walk, as a function of the two trees

  /** What the classification of one path yields: the changes reported at once and the
      content comparison queued, if any. */
  datatype Classified = Classified(reported: seq<Change>, compare: seq<Task>)

  /** The classification at the head of walk: a file on one side only is deleted or
      added (a directory is not a file), two files with different metadata are modified,
      and two files with the same metadata are queued for a content comparison. */
  function Classify(tr: Trees, path: string, i1: Option<Stat>, i2: Option<Stat>): Classified {
    var is1File, is2File := IsFile(i1), IsFile(i2);
    if is1File && !is2File then Classified([Change(ChangeDelete, path)], [])
    else if !is1File && is2File then Classified([Change(ChangeAdd, path)], [])
    else if is1File && is2File then
      if StatDifferent(i1.value, i2.value) then Classified([Change(ChangeModify, path)], [])
      else Classified([], [CompareTask(path, tr.dir1 + path, tr.dir2 + path, i1.value.size)])
    else Classified([], [])
  }

  /** The listings of a walked path: both of them, or the error of the first
      readdirnames that failed. A side that is not a directory lists as empty. */
  datatype Listed = Listed(names1: seq<NameIno>, names2: seq<NameIno>) | ListError(err: PathError)

  function ListBoth(tr: Trees, path: string, is1Dir: bool, is2Dir: bool): Listed {
    var rd1, rd2 := Readdirnames(tr.fs1, path), Readdirnames(tr.fs2, path);
    if is1Dir && rd1.ReadFailed? then ListError(PathError(ReaddirOp, First, path, rd1.errno))
    else if is2Dir && rd2.ReadFailed? then ListError(PathError(ReaddirOp, Second, path, rd2.errno))
    else Listed(if is1Dir then rd1.entries else [], if is2Dir then rd2.entries else [])
  }

  /** The stat record a child is walked with on one side: nothing when that side is not a
      directory or the child does not exist there, the error of any other lstat failure. */
  datatype Info = Info(stat: Option<Stat>) | InfoError(err: PathError)

  function ChildInfo(fs: FS, side: Side, isDir: bool, fname: string): Info {
    if !isDir then Info(None)
    else match Lstat(fs, fname)
      case Found(st) => Info(Some(st))
      case LstatFailed(e) => if IsNotExist(e) then Info(None) else InfoError(PathError(LstatOp, side, fname, e))
  }

  /** The stat record a child is walked with when its lstat does not fail otherwise. */
  function ChildStat(fs: FS, isDir: bool, fname: string): (r: Option<Stat>)
    ensures StatOf(fs, fname, r)
    ensures r.Some? <==> isDir && Lstat(fs, fname).Found?
  {
    if isDir && Lstat(fs, fname).Found? then Some(Lstat(fs, fname).stat) else None
  }

  /** The walk request for a child: the joined path and each side's stat record. */
  function ChildWalk(tr: Trees, path: string, name: string, is1Dir: bool, is2Dir: bool): Task {
    var fname := Join(path, name);
    WalkTask(fname, ChildStat(tr.fs1, is1Dir, fname), ChildStat(tr.fs2, is2Dir, fname))
  }

  /** Neither side's lstat of a child fails for a reason other than non-existence. */
  predicate ChildOk(tr: Trees, is1Dir: bool, is2Dir: bool, fname: string) {
    ChildInfo(tr.fs1, First, is1Dir, fname).Info? && ChildInfo(tr.fs2, Second, is2Dir, fname).Info?
  }

  /** The error walk returns for a child whose lstat fails: side one's, else side two's. */
  function ChildError(tr: Trees, is1Dir: bool, is2Dir: bool, fname: string): PathError
    requires !ChildOk(tr, is1Dir, is2Dir, fname)
  {
    var c1 := ChildInfo(tr.fs1, First, is1Dir, fname);
    if c1.InfoError? then c1.err else ChildInfo(tr.fs2, Second, is2Dir, fname).err
  }

  /** The walk requests sent for the merged names, in order, up to the first lstat that
      fails for a reason other than non-existence. */
  datatype Spawned = Spawned(tasks: seq<Task>, err: Option<PathError>)

  function ChildTasks(tr: Trees, path: string, names: seq<string>, is1Dir: bool, is2Dir: bool): (r: Spawned)
    ensures |r.tasks| <= |names|
    ensures r.err.None? ==> |r.tasks| == |names|
    ensures forall k :: 0 <= k < |r.tasks| ==> r.tasks[k] == ChildWalk(tr, path, names[k], is1Dir, is2Dir)
  {
    if names == [] then Spawned([], None)
    else ChildStep(tr, path, names[|names| - 1], is1Dir, is2Dir, ChildTasks(tr, path, names[..|names| - 1], is1Dir, is2Dir))
  }

  /** One child after the ones before it: nothing once an error has been returned, its
      error if its lstat fails otherwise, or one more walk request. */
  function ChildStep(tr: Trees, path: string, name: string, is1Dir: bool, is2Dir: bool, prev: Spawned): Spawned {
    var fname := Join(path, name);
    if prev.err.Some? then prev
    else if ChildOk(tr, is1Dir, is2Dir, fname) then Spawned(prev.tasks + [ChildWalk(tr, path, name, is1Dir, is2Dir)], None)
    else Spawned(prev.tasks, Some(ChildError(tr, is1Dir, is2Dir, fname)))
  }

  /** Everything one call of walk does: the changes it reports, the requests it queues
      (the content comparison first, then the child walks) and the error it returns. */
  datatype StepResult = StepResult(reported: seq<Change>, tasks: seq<Task>, err: Option<PathError>)

  function WalkStep(tr: Trees, path: string, i1: Option<Stat>, i2: Option<Stat>): StepResult {
    var cl := Classify(tr, path, i1, i2);
    var is1Dir, is2Dir := IsDir(i1), IsDir(i2);
    if !is1Dir && !is2Dir then StepResult(cl.reported, cl.compare, None)
    else match ListBoth(tr, path, is1Dir, is2Dir)
      case ListError(e) => StepResult(cl.reported, cl.compare, Some(e))
      case Listed(n1, n2) =>
        var sp := ChildTasks(tr, path, MergedNames(n1, n2, SameDevice(i1, i2)), is1Dir, is2Dir);
        StepResult(cl.reported, cl.compare + sp.tasks, sp.err)
  }

  // ---------------------------------------------------------------------------
  // Well-formed requests

  /** A stat record a request carries is the one lstat gives for its path. */
  predicate StatOf(fs: FS, path: string, i: Option<Stat>) {
    i.Some? ==> path in fs && fs[path].Entry? && fs[path].stat == i.value
  }

  /** A walk request carries the lstat records of its path; a content comparison names a
      path that exists in both trees, reached as the root prefix followed by the path. */
  predicate WellFormedTask(tr: Trees, t: Task) {
    match t
    case WalkTask(p, i1, i2) => StatOf(tr.fs1, p, i1) && StatOf(tr.fs2, p, i2)
    case CompareTask(p, p1, p2, _) =>
      p in tr.fs1 && tr.fs1[p].Entry? && p in tr.fs2 && tr.fs2[p].Entry? && p1 == tr.dir1 + p && p2 == tr.dir2 + p
  }

  predicate WellFormed(tr: Trees, q: seq<Task>) {
    forall k :: 0 <= k < |q| ==> WellFormedTask(tr, q[k])
  }

  /** Whatever walk queues is well formed again. */
  lemma WalkStepWellFormed(tr: Trees, path: string, i1: Option<Stat>, i2: Option<Stat>)
    requires WellFormedTask(tr, WalkTask(path, i1, i2))
    ensures WellFormed(tr, WalkStep(tr, path, i1, i2).tasks)
  {
  }

  // ---------------------------------------------------------------------------
  // What one walk does

  /** Child scheduling returns no error exactly when no child's lstat fails for a reason
      other than non-existence. */
  lemma {:induction false} ChildTasksNoError(tr: Trees, path: string, names: seq<string>, is1Dir: bool, is2Dir: bool)
    ensures ChildTasks(tr, path, names, is1Dir, is2Dir).err.None? <==>
      forall k :: 0 <= k < |names| ==> ChildOk(tr, is1Dir, is2Dir, Join(path, names[k]))
    decreases |names|
  {
    if names != [] {
      var init := names[..|names| - 1];
      ChildTasksNoError(tr, path, init, is1Dir, is2Dir);
      assert forall k :: 0 <= k < |init| ==> init[k] == names[k];
      var prev := ChildTasks(tr, path, init, is1Dir, is2Dir);
      assert ChildTasks(tr, path, names, is1Dir, is2Dir) == ChildStep(tr, path, names[|names| - 1], is1Dir, is2Dir, prev);
    }
  }

  /** When child scheduling fails, it is on the first child whose lstat fails otherwise,
      with that child's error, and the requests sent are those of the children before it. */
  lemma {:induction false} ChildTasksFirstError(tr: Trees, path: string, names: seq<string>, is1Dir: bool, is2Dir: bool)
    ensures var r := ChildTasks(tr, path, names, is1Dir, is2Dir);
      r.err.Some? ==>
        var k := |r.tasks|;
        k < |names| && !ChildOk(tr, is1Dir, is2Dir, Join(path, names[k])) &&
        r.err == Some(ChildError(tr, is1Dir, is2Dir, Join(path, names[k]))) &&
        forall j :: 0 <= j < k ==> ChildOk(tr, is1Dir, is2Dir, Join(path, names[j]))
    decreases |names|
  {
    if names != [] {
      var init := names[..|names| - 1];
      var prev := ChildTasks(tr, path, init, is1Dir, is2Dir);
      ChildTasksFirstError(tr, path, init, is1Dir, is2Dir);
      if prev.err.None? {
        ChildTasksNoError(tr, path, init, is1Dir, is2Dir);
      }
      assert forall k :: 0 <= k < |init| ==> init[k] == names[k];
    }
  }

  /** Once scheduling has failed on a prefix of the names, the rest changes nothing. */
  lemma {:induction false} ChildTasksStopped(tr: Trees, path: string, names: seq<string>, is1Dir: bool, is2Dir: bool, k: nat)
    requires k <= |names|
    requires ChildTasks(tr, path, names[..k], is1Dir, is2Dir).err.Some?
    ensures ChildTasks(tr, path, names, is1Dir, is2Dir) == ChildTasks(tr, path, names[..k], is1Dir, is2Dir)
    decreases |names|
  {
    if k < |names| {
      var init := names[..|names| - 1];
      assert init[..k] == names[..k];
      ChildTasksStopped(tr, path, init, is1Dir, is2Dir, k);
    } else {
      assert names[..k] == names;
    }
  }

  /** A file on one side only is reported as deleted or added, and no content comparison
      is queued for it. */
  lemma WalkOneSidedFile(tr: Trees, path: string, i1: Option<Stat>, i2: Option<Stat>)
    ensures var s := WalkStep(tr, path, i1, i2);
      IsFile(i1) && !IsFile(i2) ==> s.reported == [Change(ChangeDelete, path)] && forall t :: t in s.tasks ==> t.WalkTask?
    ensures var s := WalkStep(tr, path, i1, i2);
      !IsFile(i1) && IsFile(i2) ==> s.reported == [Change(ChangeAdd, path)] && forall t :: t in s.tasks ==> t.WalkTask?
  {
  }

  /** A file against a directory: besides the Delete, the directory's entries are all
      walked, each against nothing on the file's side. */
  lemma WalkFileAgainstDir(tr: Trees, path: string, i1: Option<Stat>, i2: Option<Stat>)
    requires IsFile(i1) && IsDir(i2) && Readdirnames(tr.fs2, path).ReadOk?
    ensures var s := WalkStep(tr, path, i1, i2);
      var names := NamesOf(Readdirnames(tr.fs2, path).entries);
      s.reported == [Change(ChangeDelete, path)] &&
      s.tasks == ChildTasks(tr, path, names, false, true).tasks &&
      (s.err.None? ==> |s.tasks| == |names|) &&
      forall t :: t in s.tasks ==> t.WalkTask? && t.i1 == None
  {
    MergedWithEmpty(Readdirnames(tr.fs2, path).entries, SameDevice(i1, i2));
  }

  /** Two files: different metadata is one Modify and no comparison; equal metadata
      reports nothing and queues exactly one comparison of the two full paths. */
  lemma WalkBothFiles(tr: Trees, path: string, i1: Option<Stat>, i2: Option<Stat>)
    requires IsFile(i1) && IsFile(i2)
    ensures StatDifferent(i1.value, i2.value) ==>
      WalkStep(tr, path, i1, i2) == StepResult([Change(ChangeModify, path)], [], None)
    ensures !StatDifferent(i1.value, i2.value) ==>
      WalkStep(tr, path, i1, i2) == StepResult([], [CompareTask(path, tr.dir1 + path, tr.dir2 + path, i1.value.size)], None)
  {
  }

  /** A symlink against a non-link: their modes carry different file types, so the
      metadata differs and the path is modified, whatever the contents. */
  lemma WalkSymlinkAgainstFile(tr: Trees, path: string, i1: Option<Stat>, i2: Option<Stat>)
    requires IsFile(i1) && IsFile(i2) && ValidStat(i1.value) && ValidStat(i2.value)
    requires i1.value.isSymlink != i2.value.isSymlink
    ensures StatDifferent(i1.value, i2.value)
    ensures WalkStep(tr, path, i1, i2) == StepResult([Change(ChangeModify, path)], [], None)
  {
    WalkBothFiles(tr, path, i1, i2);
  }

  /** Where neither side is a directory nothing is listed, no child is walked and no
      error can arise. */
  lemma WalkLeaf(tr: Trees, path: string, i1: Option<Stat>, i2: Option<Stat>)
    requires !IsDir(i1) && !IsDir(i2)
    ensures var s := WalkStep(tr, path, i1, i2);
      s.err.None? && |s.tasks| <= 1 && (s.tasks != [] ==> IsFile(i1) && IsFile(i2) && s.tasks[0].CompareTask?)
  {
  }

  /** A walked directory pair: a failing readdirnames, side one first, ends the walk with
      its error before any child is scheduled. */
  lemma WalkReaddirError(tr: Trees, path: string, i1: Option<Stat>, i2: Option<Stat>)
    requires IsDir(i1) || IsDir(i2)
    ensures var s, rd1, rd2 := WalkStep(tr, path, i1, i2), Readdirnames(tr.fs1, path), Readdirnames(tr.fs2, path);
      IsDir(i1) && rd1.ReadFailed? ==> s.err == Some(PathError(ReaddirOp, First, path, rd1.errno)) && s.tasks == []
    ensures var s, rd1, rd2 := WalkStep(tr, path, i1, i2), Readdirnames(tr.fs1, path), Readdirnames(tr.fs2, path);
      !(IsDir(i1) && rd1.ReadFailed?) && IsDir(i2) && rd2.ReadFailed? ==>
        s.err == Some(PathError(ReaddirOp, Second, path, rd2.errno)) && s.tasks == []
  {
  }

  /** A pair with a directory on either side queues no comparison, only child walks. */
  lemma DirWalkTasks(tr: Trees, path: string, i1: Option<Stat>, i2: Option<Stat>)
    requires IsDir(i1) || IsDir(i2)
    ensures var l := ListBoth(tr, path, IsDir(i1), IsDir(i2));
      WalkStep(tr, path, i1, i2).tasks ==
        if l.ListError? then [] else ChildTasks(tr, path, MergedNames(l.names1, l.names2, SameDevice(i1, i2)), IsDir(i1), IsDir(i2)).tasks
  {
    var cl := Classify(tr, path, i1, i2);
    assert cl.compare == [];
    var l := ListBoth(tr, path, IsDir(i1), IsDir(i2));
    if l.Listed? {
      var sp := ChildTasks(tr, path, MergedNames(l.names1, l.names2, SameDevice(i1, i2)), IsDir(i1), IsDir(i2));
      assert WalkStep(tr, path, i1, i2) == StepResult(cl.reported, cl.compare + sp.tasks, sp.err);
      assert cl.compare + sp.tasks == sp.tasks;
    }
  }

  /** A walked directory pair whose listings succeed: one walk request per merged name,
      in merge order, for the joined path and with each side's lstat record (nothing on a
      side that is not a directory or where the child does not exist), until a child's
      lstat fails otherwise. */
  lemma WalkChildren(tr: Trees, path: string, i1: Option<Stat>, i2: Option<Stat>)
    requires IsDir(i1) || IsDir(i2)
    requires ListBoth(tr, path, IsDir(i1), IsDir(i2)).Listed?
    ensures var s, l := WalkStep(tr, path, i1, i2), ListBoth(tr, path, IsDir(i1), IsDir(i2));
      var names := MergedNames(l.names1, l.names2, SameDevice(i1, i2));
      s.reported == Classify(tr, path, i1, i2).reported &&
      |s.tasks| <= |names| &&
      (s.err.None? <==> forall k :: 0 <= k < |names| ==> ChildOk(tr, IsDir(i1), IsDir(i2), Join(path, names[k]))) &&
      (s.err.None? ==> |s.tasks| == |names|) &&
      forall k :: 0 <= k < |s.tasks| ==> s.tasks[k] == ChildWalk(tr, path, names[k], IsDir(i1), IsDir(i2))
  {
    var l := ListBoth(tr, path, IsDir(i1), IsDir(i2));
    var names := MergedNames(l.names1, l.names2, SameDevice(i1, i2));
    var sp := ChildTasks(tr, path, names, IsDir(i1), IsDir(i2));
    DirWalkTasks(tr, path, i1, i2);
    assert WalkStep(tr, path, i1, i2).reported == Classify(tr, path, i1, i2).reported;
    assert WalkStep(tr, path, i1, i2).err == sp.err;
    ChildTasksNoError(tr, path, names, IsDir(i1), IsDir(i2));
  }

  /** A child that lstats cleanly after an error-free prefix adds its walk request. */
  lemma ChildStepOk(tr: Trees, path: string, name: string, is1Dir: bool, is2Dir: bool, prev: seq<Task>)
    requires ChildOk(tr, is1Dir, is2Dir, Join(path, name))
    ensures ChildStep(tr, path, name, is1Dir, is2Dir, Spawned(prev, None)) ==
      Spawned(prev + [ChildWalk(tr, path, name, is1Dir, is2Dir)], None)
  {
  }

  /** A child whose lstat fails otherwise, after an error-free prefix, ends the
      scheduling with its error. */
  lemma ChildStepFails(tr: Trees, path: string, name: string, is1Dir: bool, is2Dir: bool, prev: seq<Task>)
    requires !ChildOk(tr, is1Dir, is2Dir, Join(path, name))
    ensures ChildStep(tr, path, name, is1Dir, is2Dir, Spawned(prev, None)) ==
      Spawned(prev, Some(ChildError(tr, is1Dir, is2Dir, Join(path, name))))
  {
  }

  /** Children that all lstat cleanly are scheduled one walk request each, in order. */
  lemma {:induction false} ChildTasksAllOk(tr: Trees, path: string, names: seq<string>, is1Dir: bool, is2Dir: bool,
                                           spawned: seq<Task>)
    requires |spawned| == |names|
    requires forall k :: 0 <= k < |names| ==>
      ChildOk(tr, is1Dir, is2Dir, Join(path, names[k])) && spawned[k] == ChildWalk(tr, path, names[k], is1Dir, is2Dir)
    ensures ChildTasks(tr, path, names, is1Dir, is2Dir) == Spawned(spawned, None)
    decreases |names|
  {
    if names != [] {
      var n := |names| - 1;
      ChildTasksAllOk(tr, path, names[..n], is1Dir, is2Dir, spawned[..n]);
      ChildStepOk(tr, path, names[n], is1Dir, is2Dir, spawned[..n]);
      assert spawned == spawned[..n] + [spawned[n]];
    }
  }

  /** The first child whose lstat fails otherwise ends the scheduling with its error,
      after the requests for the children before it. */
  lemma ChildTasksFailsAt(tr: Trees, path: string, names: seq<string>, is1Dir: bool, is2Dir: bool,
                          i: nat, spawned: seq<Task>)
    requires i < |names| && |spawned| == i
    requires forall k :: 0 <= k < i ==>
      ChildOk(tr, is1Dir, is2Dir, Join(path, names[k])) && spawned[k] == ChildWalk(tr, path, names[k], is1Dir, is2Dir)
    requires !ChildOk(tr, is1Dir, is2Dir, Join(path, names[i]))
    ensures ChildTasks(tr, path, names, is1Dir, is2Dir) == Spawned(spawned, Some(ChildError(tr, is1Dir, is2Dir, Join(path, names[i]))))
  {
    var pre := names[..i + 1];
    assert pre[..i] == names[..i] && pre[i] == names[i];
    ChildTasksAllOk(tr, path, names[..i], is1Dir, is2Dir, spawned);
    ChildStepFails(tr, path, names[i], is1Dir, is2Dir, spawned);
    assert ChildTasks(tr, path, pre, is1Dir, is2Dir) ==
      ChildStep(tr, path, names[i], is1Dir, is2Dir, ChildTasks(tr, path, names[..i], is1Dir, is2Dir));
    ChildTasksStopped(tr, path, names, is1Dir, is2Dir, i + 1);
  }

  /** The lstat of one child on one side, as the loop over the merged names makes it:
      only on a side that is a directory, with non-existence read as absence. */
  method LstatChild(fs: FS, side: Side, isDir: bool, fname: string) returns (info: Info)
    ensures info == ChildInfo(fs, side, isDir, fname)
    ensures info.Info? ==> info.stat == ChildStat(fs, isDir, fname)
  {
    info := Info(None);
    if isDir {
      var st := Lstat(fs, fname);
      if st.LstatFailed? && !IsNotExist(st.errno) {
        return InfoError(PathError(LstatOp, side, fname, st.errno));
      }
      if st.Found? {
        info := Info(Some(st.stat));
      }
    }
  }

  lemma AppendAssoc(a: seq<Task>, b: seq<Task>, c: seq<Task>)
    ensures (a + b) + c == a + (b + c)
  {
  }

  // ---------------------------------------------------------------------------
  // The walker object

  /** The walker struct: the two trees it reads, the normalised root prefixes, the error
      recorded by the workers, the pending requests standing for the two request channels
      and the request counter. The changes channel is never sent on and is left out;
      reported changes go to the standard output. */
  class Walker {
    const fs1: FS
    const fs2: FS
    const dir1: string
    const dir2: string
    const out: Output
    var err: Option<PathError>
    var queue: seq<Task>
    var requests: nat

    function Env(): Trees {
      Trees(fs1, fs2, dir1, dir2)
    }

    ghost predicate Valid()
      reads this, out
    {
      out.Valid() && WellFormed(Env(), queue)
    }

    constructor (fs1: FS, fs2: FS, dir1: string, dir2: string, out: Output)
      requires out.Valid()
      ensures Valid()
      ensures this.fs1 == fs1 && this.fs2 == fs2 && this.dir1 == dir1 && this.dir2 == dir2 && this.out == out
      ensures err == None && queue == [] && requests == 0
    {
      this.fs1, this.fs2, this.dir1, this.dir2, this.out := fs1, fs2, dir1, dir2, out;
      err, queue, requests := None, [], 0;
    }

    /** requests.Add(1) followed by the send of the request. */
    method Enqueue(t: Task)
      modifies this
      ensures queue == old(queue) + [t] && requests == old(requests) + 1 && err == old(err)
    {
      requests := requests + 1;
      queue := queue + [t];
    }

    /** A worker receiving the oldest pending request. */
    method Receive() returns (t: Task)
      requires queue != []
      modifies this
      ensures t == old(queue)[0] && queue == old(queue)[1..]
      ensures requests == old(requests) && err == old(err)
    {
      t := queue[0];
      queue := queue[1..];
    }

    /** requests.Done(). */
    method Done()
      requires requests >= 1
      modifies this
      ensures requests == old(requests) - 1 && queue == old(queue) && err == old(err)
    {
      requests := requests - 1;
    }

    /** The loop of walk over the merged names: lstat each child on the sides that are
        directories, return a failure other than non-existence, and queue a walk request
        for the child otherwise. */
    method ScheduleChildren(path: string, names: seq<string>, is1Dir: bool, is2Dir: bool) returns (e: Option<PathError>)
      requires WellFormed(Env(), queue)
      modifies this
      ensures WellFormed(Env(), queue)
      ensures var sp := ChildTasks(Env(), path, names, is1Dir, is2Dir);
        e == sp.err && queue == old(queue) + sp.tasks && requests == old(requests) + |sp.tasks| && err == old(err)
    {
      ghost var spawned: seq<Task> := [];
      var i := 0;
      while i < |names|
        invariant 0 <= i <= |names| && |spawned| == i
        invariant forall k :: 0 <= k < i ==>
          ChildOk(Env(), is1Dir, is2Dir, Join(path, names[k])) && spawned[k] == ChildWalk(Env(), path, names[k], is1Dir, is2Dir)
        invariant queue == old(queue) + spawned && requests == old(requests) + |spawned| && err == old(err)
        invariant WellFormed(Env(), queue)
      {
        var fname := Join(path, names[i]);
        var c1 := LstatChild(fs1, First, is1Dir, fname);
        if c1.InfoError? {
          ChildTasksFailsAt(Env(), path, names, is1Dir, is2Dir, i, spawned);
          return Some(c1.err);
        }
        var c2 := LstatChild(fs2, Second, is2Dir, fname);
        if c2.InfoError? {
          ChildTasksFailsAt(Env(), path, names, is1Dir, is2Dir, i, spawned);
          return Some(c2.err);
        }
        Enqueue(WalkTask(fname, c1.stat, c2.stat));
        spawned := spawned + [WalkTask(fname, c1.stat, c2.stat)];
        i := i + 1;
      }
      ChildTasksAllOk(Env(), path, names, is1Dir, is2Dir, spawned);
      e := None;
    }

    /** The classification at the head of walk: report Delete, Add or Modify, or queue
        the content comparison of two files whose metadata agree. */
    method ReportOrCompare(path: string, i1: Option<Stat>, i2: Option<Stat>)
      requires Valid() && WellFormedTask(Env(), WalkTask(path, i1, i2))
      modifies this, out
      ensures Valid()
      ensures var cl := Classify(Env(), path, i1, i2);
        out.log == old(out.log) + cl.reported && queue == old(queue) + cl.compare &&
        requests == old(requests) + |cl.compare| && err == old(err)
    {
      var is1File := i1.Some? && !i1.value.isDir;
      var is2File := i2.Some? && !i2.value.isDir;

      if is1File && !is2File {
        out.ReportChange(path, ChangeDelete);
      } else if !is1File && is2File {
        out.ReportChange(path, ChangeAdd);
      } else if is1File && is2File {
        if StatDifferent(i1.value, i2.value) {
          out.ReportChange(path, ChangeModify);
        } else {
          Enqueue(CompareTask(path, dir1 + path, dir2 + path, i1.value.size));
        }
      }
    }

    /** Fetching the names in both directories being walked, side one first; the first
        failure ends the walk. */
    method ListDirs(path: string, is1Dir: bool, is2Dir: bool) returns (l: Listed)
      ensures l == ListBoth(Env(), path, is1Dir, is2Dir)
    {
      var names1: seq<NameIno> := [];
      var names2: seq<NameIno> := [];
      if is1Dir {
        var rd := Readdirnames(fs1, path);
        if rd.ReadFailed? {
          return ListError(PathError(ReaddirOp, First, path, rd.errno));
        }
        names1 := rd.entries;
      }
      if is2Dir {
        var rd := Readdirnames(fs2, path);
        if rd.ReadFailed? {
          return ListError(PathError(ReaddirOp, Second, path, rd.errno));
        }
        names2 := rd.entries;
      }
      l := Listed(names1, names2);
    }

    /** walk: classify the pair, list both directories, merge the listings and schedule
        the children. Its effect is exactly WalkStep's. */
    method Walk(path: string, i1: Option<Stat>, i2: Option<Stat>) returns (e: Option<PathError>)
      requires Valid() && WellFormedTask(Env(), WalkTask(path, i1, i2))
      modifies this, out
      ensures Valid()
      ensures var s := WalkStep(Env(), path, i1, i2);
        e == s.err && queue == old(queue) + s.tasks && requests == old(requests) + |s.tasks| &&
        out.log == old(out.log) + s.reported && err == old(err)
    {
      var is1Dir := i1.Some? && i1.value.isDir;
      var is2Dir := i2.Some? && i2.value.isDir;

      var sameDevice := false;
      if i1.Some? && i2.Some? {
        if i1.value.dev == i2.value.dev {
          sameDevice := true;
        }
      }

      ReportOrCompare(path, i1, i2);
      ghost var cl := Classify(Env(), path, i1, i2);

      if !is1Dir && !is2Dir {
        return None;
      }

      var listed := ListDirs(path, is1Dir, is2Dir);
      if listed.ListError? {
        return Some(listed.err);
      }
      var names1, names2 := listed.names1, listed.names2;

      var names := MergeNames(names1, names2, sameDevice);
      e := ScheduleChildren(path, names, is1Dir, is2Dir);
      ghost var sp := ChildTasks(Env(), path, names, is1Dir, is2Dir);
      assert WalkStep(Env(), path, i1, i2) == StepResult(cl.reported, cl.compare + sp.tasks, sp.err);
      AppendAssoc(old(queue), cl.compare, sp.tasks);
    }
  }
}
