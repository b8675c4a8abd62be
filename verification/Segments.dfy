/** strings.Join on parts that do not contain the separator, and what can be read back from it. */
module Segments {
  predicate FreeOf(s: string, sep: char) {
    sep !in s
  }

  ghost predicate AllFreeOf(parts: seq<string>, sep: char) {
    forall i | 0 <= i < |parts| :: FreeOf(parts[i], sep)
  }

  function Join(parts: seq<string>, sep: char): string
    decreases |parts|, 0
  {
    if parts == [] then "" else parts[0] + Rest(parts[1..], sep)
  }

  function Rest(parts: seq<string>, sep: char): string
    decreases |parts|, 1
  {
    if parts == [] then "" else [sep] + Join(parts, sep)
  }

  ghost predicate EndsSegment(u: string, sep: char) {
    u == "" || u[0] == sep
  }

  /** Where the first segment ends. */
  function FirstSeparator(s: string, sep: char): nat {
    if s == "" || s[0] == sep then 0 else 1 + FirstSeparator(s[1..], sep)
  }

  lemma {:induction false} FirstSeparatorAfter(x: string, u: string, sep: char)
    requires FreeOf(x, sep) && EndsSegment(u, sep)
    ensures FirstSeparator(x + u, sep) == |x|
  {
    if x == "" {
      assert x + u == u;
    } else {
      assert (x + u)[1..] == x[1..] + u;
      FirstSeparatorAfter(x[1..], u, sep);
    }
  }

  /** The first segment is determined by the whole. */
  lemma HeadUnique(x: string, u: string, y: string, v: string, sep: char)
    requires FreeOf(x, sep) && FreeOf(y, sep) && EndsSegment(u, sep) && EndsSegment(v, sep)
    requires x + u == y + v
    ensures x == y && u == v
  {
    FirstSeparatorAfter(x, u, sep);
    FirstSeparatorAfter(y, v, sep);
    assert (x + u)[..|x|] == x && (x + u)[|x|..] == u;
    assert (y + v)[..|y|] == y && (y + v)[|y|..] == v;
  }

  lemma {:induction false} JoinInjective(a: seq<string>, b: seq<string>, sep: char)
    requires a != [] && b != [] && AllFreeOf(a, sep) && AllFreeOf(b, sep)
    requires Join(a, sep) == Join(b, sep)
    ensures a == b
    decreases |a|
  {
    HeadUnique(a[0], Rest(a[1..], sep), b[0], Rest(b[1..], sep), sep);
    if a[1..] != [] && b[1..] != [] {
      assert Join(a[1..], sep) == Rest(a[1..], sep)[1..] && Join(b[1..], sep) == Rest(b[1..], sep)[1..];
      JoinInjective(a[1..], b[1..], sep);
    }
    assert a == [a[0]] + a[1..] && b == [b[0]] + b[1..];
  }
}
