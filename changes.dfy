/** Change records and the line a reported change prints as. */
module ChangeRecords {
  import opened Base

  /** ChangeType is a plain integer; the three named kinds are 0, 1 and 2. */
  type ChangeType = int

  const ChangeModify: ChangeType := 0
  const ChangeAdd: ChangeType := 1
  const ChangeDelete: ChangeType := 2

  datatype Change = Change(kind: ChangeType, path: string)

  predicate ValidKind(k: ChangeType) {
    k == ChangeModify || k == ChangeAdd || k == ChangeDelete
  }

  /** The letter of a kind; a kind outside the three has none. */
  function KindLetter(k: ChangeType): string {
    if k == ChangeModify then "M"
    else if k == ChangeAdd then "A"
    else if k == ChangeDelete then "D"
    else ""
  }

  /** Change.String: the kind letter, a tab, then the path. */
  function String(c: Change): (s: string)
    ensures c.kind == ChangeModify ==> s == "M\t" + c.path
    ensures c.kind == ChangeAdd ==> s == "A\t" + c.path
    ensures c.kind == ChangeDelete ==> s == "D\t" + c.path
    ensures !ValidKind(c.kind) ==> s == "\t" + c.path
  {
    KindLetter(c.kind) + "\t" + c.path
  }

  /** The kind a letter stands for. */
  function KindOf(letter: char): Option<ChangeType> {
    if letter == 'M' then Some(ChangeModify)
    else if letter == 'A' then Some(ChangeAdd)
    else if letter == 'D' then Some(ChangeDelete)
    else None
  }

  /** Reads a formatted change back: a letter, a tab, then the path. */
  function Parse(s: string): (r: Option<Change>)
    ensures r.Some? ==> ValidKind(r.value.kind)
  {
    if |s| >= 2 && s[1] == '\t' && KindOf(s[0]).Some? then Some(Change(KindOf(s[0]).value, s[2..]))
    else None
  }

  /** For the three named kinds the formatted line determines the change. */
  lemma ParseString(c: Change)
    requires ValidKind(c.kind)
    ensures Parse(String(c)) == Some(c)
  {
    var s := String(c);
    assert s[0] == KindLetter(c.kind)[0];
  }

  /** A line with no kind letter is never read back as a change. */
  lemma ParseInvalidKind(c: Change)
    requires !ValidKind(c.kind)
    ensures Parse(String(c)) == None
  {
    var s := String(c);
    assert s[0] == '\t';
  }

  /** Two changes of named kinds print differently unless they are the same change. */
  lemma StringInjective(c1: Change, c2: Change)
    requires ValidKind(c1.kind) && ValidKind(c2.kind)
    requires String(c1) == String(c2)
    ensures c1 == c2
  {
    ParseString(c1);
    ParseString(c2);
  }

  /** The text reportChange writes for one change: its String form and a newline. */
  function Line(c: Change): string {
    String(c) + "\n"
  }

  /** Everything a sequence of reportChange calls writes, in call order. */
  function Render(log: seq<Change>): string {
    if log == [] then "" else Render(log[..|log| - 1]) + Line(log[|log| - 1])
  }

  /** The same change seen with the two trees swapped: Add and Delete trade places. */
  function Mirror(c: Change): (m: Change)
    ensures m.path == c.path
    ensures c.kind == ChangeAdd <==> m.kind == ChangeDelete
    ensures c.kind == ChangeDelete <==> m.kind == ChangeAdd
    ensures c.kind != ChangeAdd && c.kind != ChangeDelete ==> m == c
  {
    if c.kind == ChangeAdd then Change(ChangeDelete, c.path)
    else if c.kind == ChangeDelete then Change(ChangeAdd, c.path)
    else c
  }

  function MirrorAll(log: seq<Change>): (r: seq<Change>)
    ensures |r| == |log|
    ensures forall i :: 0 <= i < |log| ==> r[i] == Mirror(log[i])
  {
    if log == [] then [] else [Mirror(log[0])] + MirrorAll(log[1..])
  }

  lemma {:induction false} MirrorAllConcat(a: seq<Change>, b: seq<Change>)
    ensures MirrorAll(a + b) == MirrorAll(a) + MirrorAll(b)
  {
  }

  /** Printing the concatenation of two logs prints one log after the other. */
  lemma {:induction false} RenderAppend(a: seq<Change>, b: seq<Change>)
    ensures Render(a + b) == Render(a) + Render(b)
    decreases |b|
  {
    if b == [] {
      assert a + b == a;
    } else {
      var b', last := b[..|b| - 1], b[|b| - 1];
      assert (a + b)[..|a + b| - 1] == a + b';
      assert (a + b)[|a + b| - 1] == last;
      RenderAppend(a, b');
      var x, y, z := Render(a), Render(b'), Line(last);
      assert Render(a + b) == (x + y) + z;
      assert Render(b) == y + z;
      assert (x + y) + z == x + (y + z);
    }
  }

  /** The standard output of the process, as far as reportChange writes to it: the text
      printed so far and, as a ghost, the changes it spells out. */
  class Output {
    var text: string
    ghost var log: seq<Change>

    ghost predicate Valid()
      reads this
    {
      text == Render(log)
    }

    constructor ()
      ensures Valid() && log == []
    {
      text := "";
      log := [];
    }

    /** reportChange: builds the change and prints its String form on a line of its own. */
    method ReportChange(path: string, k: ChangeType)
      requires Valid()
      modifies this
      ensures Valid()
      ensures log == old(log) + [Change(k, path)]
      ensures text == old(text) + String(Change(k, path)) + "\n"
    {
      var c := Change(k, path);
      ghost var log' := log + [c];
      assert log'[..|log'| - 1] == log;
      text := text + String(c) + "\n";
      log := log';
    }
  }
}
