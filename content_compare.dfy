/** mmapCompare: decides whether two same-sized files have equal contents. The system
    calls are abstract outcomes (a Probe per path); the memory maps and file handles are
    tracked as a trace of acquire and release events, where deferred releases run in
    last-in-first-out order when the function returns. */
module ContentCompare {
  import opened Base
  import opened Order

  /** In most cases it is better to report a spurious change than to miss one. */
  const ResultOnFailure: int := -1

  /** What the comparator observes for one path: whether open(2) succeeds, what mmap(2)
      of the size bytes yields, whether lstat(2) in the fallback succeeds and reports a
      symlink, and what readlink(2) yields. */
  datatype Probe = Probe(openOk: bool, mapped: Option<seq<byte>>, isSymlink: Option<bool>, target: Option<string>)

  datatype Resource = File1 | File2 | Map1 | Map2
  datatype Event = Acquire(res: Resource) | Release(res: Resource)

  /** Both opens and both maps succeed. */
  predicate AllMapped(o1: Probe, o2: Probe) {
    o1.openOk && o2.openOk && o1.mapped.Some? && o2.mapped.Some?
  }

  /** The comparison reaches the symlink fallback (the maybeSymlink label). */
  predicate ReachesFallback(o1: Probe, o2: Probe, size: int) {
    size != 0 && !AllMapped(o1, o2)
  }

  /** The fallback dereferences the lstat results, so it needs both to have succeeded. */
  predicate FallbackStatsOk(o1: Probe, o2: Probe, size: int) {
    ReachesFallback(o1, o2, size) ==> o1.isSymlink.Some? && o2.isSymlink.Some?
  }

  /** The result table of mmapCompare. */
  function CompareResult(o1: Probe, o2: Probe, size: int): int
    requires FallbackStatsOk(o1, o2, size)
  {
    if size == 0 then 0
    else if AllMapped(o1, o2) then BytesCompare(o1.mapped.value, o2.mapped.value)
    else
      var sym1, sym2 := o1.isSymlink.value, o2.isSymlink.value;
      if sym1 && sym2 then
        if o1.target.None? || o2.target.None? then ResultOnFailure
        else StrCompare(o1.target.value, o2.target.value)
      else if !sym1 && !sym2 then ResultOnFailure
      else 1
  }

  /** The resources mmapCompare holds when it returns, in the order it acquired them. */
  function Acquired(o1: Probe, o2: Probe, size: int): seq<Resource> {
    if size == 0 || !o1.openOk then []
    else if !o2.openOk then [File1]
    else if o1.mapped.None? then [File1, File2]
    else if o2.mapped.None? then [File1, File2, Map1]
    else [File1, File2, Map1, Map2]
  }

  function Acquires(rs: seq<Resource>): (t: seq<Event>)
    ensures |t| == |rs|
    ensures forall i :: 0 <= i < |rs| ==> t[i] == Acquire(rs[i])
  {
    if rs == [] then [] else [Acquire(rs[0])] + Acquires(rs[1..])
  }

  /** The deferred releases of rs, most recent first. */
  function ReleaseOrder(rs: seq<Resource>): (t: seq<Event>)
    ensures |t| == |rs|
    ensures forall i :: 0 <= i < |rs| ==> t[i] == Release(rs[|rs| - 1 - i])
  {
    if rs == [] then [] else ReleaseOrder(rs[1..]) + [Release(rs[0])]
  }

  /** Acquire everything in rs, then release it in reverse. */
  function Bracket(rs: seq<Resource>): seq<Event> {
    Acquires(rs) + ReleaseOrder(rs)
  }

  /** How many times a trace holds a resource: acquisitions minus releases. */
  function Held(t: seq<Event>, r: Resource): int {
    multiset(t)[Acquire(r)] as int - multiset(t)[Release(r)] as int
  }

  /** Runs the deferred calls when the function returns: last deferred, first run. */
  method RunDeferred(trace: seq<Event>, deferred: seq<Resource>) returns (t: seq<Event>)
    ensures t == trace + ReleaseOrder(deferred)
  {
    t := trace;
    var i := |deferred|;
    while i > 0
      invariant 0 <= i <= |deferred|
      invariant t == trace + ReleaseOrder(deferred[i..])
    {
      i := i - 1;
      assert deferred[i..][1..] == deferred[i + 1..];
      t := t + [Release(deferred[i])];
    }
    assert deferred[0..] == deferred;
  }

  /** mmapCompare. Where the source jumps to the maybeSymlink label, this sets
      `maybeSymlink` and skips the remaining acquisitions. */
  method MmapCompare(o1: Probe, o2: Probe, size: int) returns (r: int, trace: seq<Event>)
    requires FallbackStatsOk(o1, o2, size)
    ensures r == CompareResult(o1, o2, size)
    ensures trace == Bracket(Acquired(o1, o2, size))
  {
    if size == 0 {
      return 0, [];
    }
    trace := [];
    var deferred: seq<Resource> := [];
    var maybeSymlink := false;
    var mm1: seq<byte>, mm2: seq<byte> := [], [];
    if !o1.openOk {
      maybeSymlink := true;
    } else {
      trace, deferred := trace + [Acquire(File1)], deferred + [File1];
    }
    if !maybeSymlink {
      if !o2.openOk {
        maybeSymlink := true;
      } else {
        trace, deferred := trace + [Acquire(File2)], deferred + [File2];
      }
    }
    if !maybeSymlink {
      if o1.mapped.None? {
        maybeSymlink := true;
      } else {
        mm1 := o1.mapped.value;
        trace, deferred := trace + [Acquire(Map1)], deferred + [Map1];
      }
    }
    if !maybeSymlink {
      if o2.mapped.None? {
        maybeSymlink := true;
      } else {
        mm2 := o2.mapped.value;
        trace, deferred := trace + [Acquire(Map2)], deferred + [Map2];
      }
    }
    assert deferred == Acquired(o1, o2, size) && trace == Acquires(deferred);
    if !maybeSymlink {
      r := BytesCompare(mm1, mm2);
    } else {
      var p1IsSym := o1.isSymlink.value;
      var p2IsSym := o2.isSymlink.value;
      if p1IsSym && p2IsSym {
        if o1.target.None? {
          r := ResultOnFailure;
        } else if o2.target.None? {
          r := ResultOnFailure;
        } else {
          r := StrCompare(o1.target.value, o2.target.value);
        }
      } else if !p1IsSym && !p2IsSym {
        r := ResultOnFailure;
      } else {
        r := 1;
      }
    }
    trace := RunDeferred(trace, deferred);
  }

  /** The result is always -1, 0 or 1, and it is 0 exactly when the size is zero, the
      mapped contents are equal, or both paths are symlinks with equal readable targets. */
  lemma ResultTable(o1: Probe, o2: Probe, size: int)
    requires FallbackStatsOk(o1, o2, size)
    ensures var r := CompareResult(o1, o2, size);
      (r == -1 || r == 0 || r == 1) &&
      (r == 0 <==>
        size == 0
        || (AllMapped(o1, o2) && o1.mapped.value == o2.mapped.value)
        || (ReachesFallback(o1, o2, size) && o1.isSymlink == Some(true) && o2.isSymlink == Some(true)
            && o1.target.Some? && o1.target == o2.target))
  {
  }

  /** The failure rows: an unreadable link target or two non-links give ResultOnFailure,
      exactly one link gives 1. */
  lemma FallbackRows(o1: Probe, o2: Probe, size: int)
    requires ReachesFallback(o1, o2, size) && FallbackStatsOk(o1, o2, size)
    ensures var sym1, sym2 := o1.isSymlink.value, o2.isSymlink.value;
      var r := CompareResult(o1, o2, size);
      (sym1 && sym2 && (o1.target.None? || o2.target.None?) ==> r == ResultOnFailure) &&
      (!sym1 && !sym2 ==> r == ResultOnFailure) &&
      (sym1 != sym2 ==> r == 1)
  {
  }

  /** Whether two files count as equal does not depend on which is given first. */
  lemma CompareSymmetric(o1: Probe, o2: Probe, size: int)
    requires FallbackStatsOk(o1, o2, size)
    ensures FallbackStatsOk(o2, o1, size)
    ensures CompareResult(o2, o1, size) == 0 <==> CompareResult(o1, o2, size) == 0
  {
    ResultTable(o1, o2, size);
    ResultTable(o2, o1, size);
  }

  /** Once both paths open and map, only the bytes decide: whether either path is a
      symlink, and where it points, no longer matters. Two links to equal contents are
      equal whatever their targets. */
  lemma MappedIgnoresLinks(o1: Probe, o2: Probe, o1': Probe, o2': Probe, size: int)
    requires size != 0 && AllMapped(o1, o2)
    requires o1'.openOk == o1.openOk && o1'.mapped == o1.mapped && o2'.openOk == o2.openOk && o2'.mapped == o2.mapped
    ensures FallbackStatsOk(o1, o2, size) && FallbackStatsOk(o1', o2', size)
    ensures CompareResult(o1', o2', size) == CompareResult(o1, o2, size)
    ensures CompareResult(o1, o2, size) == 0 <==> o1.mapped.value == o2.mapped.value
  {
  }

  /** A zero size touches no file: nothing is opened or mapped. */
  lemma ZeroSizeNoIo(o1: Probe, o2: Probe)
    ensures Bracket(Acquired(o1, o2, 0)) == []
    ensures CompareResult(o1, o2, 0) == 0
  {
  }

  lemma {:induction false} AcquiresCounts(rs: seq<Resource>, r: Resource)
    ensures multiset(Acquires(rs))[Acquire(r)] == multiset(rs)[r]
    ensures multiset(Acquires(rs))[Release(r)] == 0
  {
    if rs != [] {
      assert Acquires(rs) == [Acquire(rs[0])] + Acquires(rs[1..]);
      AcquiresCounts(rs[1..], r);
      assert rs == [rs[0]] + rs[1..];
    }
  }

  /** The first k deferred releases give back the k resources acquired last. */
  lemma {:induction false} ReleaseOrderPrefix(rs: seq<Resource>, k: nat, r: Resource)
    requires k <= |rs|
    ensures multiset(ReleaseOrder(rs)[..k])[Acquire(r)] == 0
    ensures multiset(ReleaseOrder(rs)[..k])[Release(r)] == multiset(rs[|rs| - k..])[r]
  {
    if k > 0 {
      var t := ReleaseOrder(rs)[..k];
      assert t == ReleaseOrder(rs)[..k - 1] + [Release(rs[|rs| - k])];
      ReleaseOrderPrefix(rs, k - 1, r);
      assert rs[|rs| - k..] == [rs[|rs| - k]] + rs[|rs| - k + 1..];
    }
  }

  lemma BracketEnd(rs: seq<Resource>, r: Resource)
    ensures multiset(Bracket(rs))[Release(r)] == multiset(rs)[r]
    ensures Held(Bracket(rs), r) == 0
  {
    AcquiresCounts(rs, r);
    ReleaseOrderPrefix(rs, |rs|, r);
    assert ReleaseOrder(rs)[..|rs|] == ReleaseOrder(rs);
    assert rs[0..] == rs;
  }

  lemma BracketPrefix(rs: seq<Resource>, k: nat, r: Resource)
    requires k <= |Bracket(rs)|
    ensures Held(Bracket(rs)[..k], r) >= 0
  {
    var t := Bracket(rs);
    if k <= |rs| {
      assert t[..k] == Acquires(rs[..k]);
      AcquiresCounts(rs[..k], r);
    } else {
      var j := k - |rs|;
      assert t[..k] == Acquires(rs) + ReleaseOrder(rs)[..j];
      AcquiresCounts(rs, r);
      ReleaseOrderPrefix(rs, j, r);
      assert rs == rs[..|rs| - j] + rs[|rs| - j..];
    }
  }

  /** Every resource the comparator acquires is released as often as it was acquired, and
      never before: at every point of the trace no resource is held a negative number of
      times, and at the end none is held. */
  lemma BracketBalanced(rs: seq<Resource>)
    ensures forall r :: multiset(Bracket(rs))[Release(r)] == multiset(rs)[r] && Held(Bracket(rs), r) == 0
    ensures forall k, r :: 0 <= k <= |Bracket(rs)| ==> Held(Bracket(rs)[..k], r) >= 0
  {
    forall r
      ensures multiset(Bracket(rs))[Release(r)] == multiset(rs)[r] && Held(Bracket(rs), r) == 0
    {
      BracketEnd(rs, r);
    }
    forall k, r | 0 <= k <= |Bracket(rs)|
      ensures Held(Bracket(rs)[..k], r) >= 0
    {
      BracketPrefix(rs, k, r);
    }
  }

  /** The resources held when mmapCompare returns are distinct and each map lies over an
      open file: a map is only acquired after both files opened. */
  lemma AcquiredWellOrdered(o1: Probe, o2: Probe, size: int)
    ensures var rs := Acquired(o1, o2, size);
      (forall i, j :: 0 <= i < j < |rs| ==> rs[i] != rs[j]) &&
      (Map1 in rs ==> File1 in rs && File2 in rs) &&
      (Map2 in rs ==> Map1 in rs)
      && (|rs| == 4 <==> size != 0 && AllMapped(o1, o2))
  {
  }
}
