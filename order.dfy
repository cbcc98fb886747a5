/** The two comparison primitives of Go's standard library that the core relies on:
    bytes.Compare (file contents) and strings.Compare (entry names, link targets).
    Both are lexicographic and return -1, 0 or 1. */
module Order {
  import opened Base

  /** bytes.Compare: lexicographic order on byte sequences. */
  function BytesCompare(a: seq<byte>, b: seq<byte>): (r: int)
    ensures r == -1 || r == 0 || r == 1
    ensures r == 0 <==> a == b
  {
    if a == [] then (if b == [] then 0 else -1)
    else if b == [] then 1
    else if a[0] < b[0] then -1
    else if a[0] > b[0] then 1
    else
      var r := BytesCompare(a[1..], b[1..]);
      assert a == [a[0]] + a[1..] && b == [b[0]] + b[1..];
      r
  }

  /** strings.Compare: lexicographic order on strings, character by character. */
  function StrCompare(a: string, b: string): (r: int)
    ensures r == -1 || r == 0 || r == 1
    ensures r == 0 <==> a == b
  {
    if a == [] then (if b == [] then 0 else -1)
    else if b == [] then 1
    else if a[0] < b[0] then -1
    else if a[0] > b[0] then 1
    else
      var r := StrCompare(a[1..], b[1..]);
      assert a == [a[0]] + a[1..] && b == [b[0]] + b[1..];
      r
  }

  /** The strict order the directory merge relies on. */
  predicate StrLess(a: string, b: string) {
    StrCompare(a, b) < 0
  }

  /** Swapping the arguments of bytes.Compare negates the result. */
  lemma {:induction false} BytesCompareAntisymmetric(a: seq<byte>, b: seq<byte>)
    ensures BytesCompare(b, a) == -BytesCompare(a, b)
  {
    if a != [] && b != [] && a[0] == b[0] {
      BytesCompareAntisymmetric(a[1..], b[1..]);
    }
  }

  /** Swapping the arguments of strings.Compare negates the result. */
  lemma {:induction false} StrCompareAntisymmetric(a: string, b: string)
    ensures StrCompare(b, a) == -StrCompare(a, b)
  {
    if a != [] && b != [] && a[0] == b[0] {
      StrCompareAntisymmetric(a[1..], b[1..]);
    }
  }

  /** The order strings.Compare induces is transitive. */
  lemma {:induction false} StrLessTransitive(a: string, b: string, c: string)
    requires StrLess(a, b) && StrLess(b, c)
    ensures StrLess(a, c)
  {
    if a != [] && b != [] && c != [] && a[0] == b[0] && b[0] == c[0] {
      StrLessTransitive(a[1..], b[1..], c[1..]);
    }
  }
}
